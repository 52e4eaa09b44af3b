/**
 * The `EventEmitter` class (EventEmitter.ts): `on`, `off` and `trigger`
 * over the callbacks table of module Registry.
 *
 * Callbacks are opaque ids. What a callback returns, given its id and the
 * arguments, is the parameter `respond` of `Trigger`; the callbacks do not
 * call back into the emitter.
 */
module Emitter {
  import opened Js
  import opened Names
  import opened Registry

  /** What `on` and `off` return: `false` when the arguments are refused, the emitter itself otherwise. */
  datatype Chain = Rejected | Itself

  /** What `trigger` returns, or that it throws. */
  datatype Outcome =
    | TriggerRejected        // `return false` on a missing or empty name
    | TriggerItself          // `return this` on a namespace-only name
    | Returned(value: JsValue)
    | TypeError              // `forEach` of a missing event list in a named namespace

  /** The second argument of `trigger`: an array of values, or anything else. */
  datatype Args = ArrayArgs(items: seq<Value>) | NotArray

  /** One callback invocation, as `callback.apply(this, args)`. */
  datatype Invocation = Invocation(callback: CallbackId, args: seq<Value>)

  /** `!(_args instanceof Array) ? [] : _args`. */
  function ArgList(args: Args): seq<Value>
  {
    match args
    case ArrayArgs(items) => items
    case NotArray => []
  }

  /** The invocations of the callbacks `ids`, in order, each with `args`. */
  function Calls(ids: seq<CallbackId>, args: seq<Value>): (r: seq<Invocation>)
    ensures |r| == |ids|
  {
    if ids == [] then [] else [Invocation(ids[0], args)] + Calls(ids[1..], args)
  }

  lemma {:induction false} CallsAppend(a: seq<CallbackId>, b: seq<CallbackId>, args: seq<Value>)
    ensures Calls(a + b, args) == Calls(a, args) + Calls(b, args)
  {
    if a == [] {
      assert a + b == b;
    } else {
      assert (a + b)[1..] == a[1..] + b;
      CallsAppend(a[1..], b, args);
    }
  }

  lemma CallsSnoc(list: seq<CallbackId>, k: nat, args: seq<Value>)
    requires k < |list|
    ensures Calls(list[..k + 1], args) == Calls(list[..k], args) + [Invocation(list[k], args)]
  {
    assert list[..k + 1] == list[..k] + [list[k]];
    CallsAppend(list[..k], [list[k]], args);
    assert [list[k]][1..] == [];
  }

  /** The callbacks of the framework return nothing (`undefined`); their result is ignored anyway. */
  function Discard(id: CallbackId, args: seq<Value>): JsValue {
    UndefinedValue
  }

  /** What the callbacks of a trace return. */
  function Results(trace: seq<Invocation>, respond: (CallbackId, seq<Value>) -> JsValue): (r: seq<JsValue>)
    ensures |r| == |trace|
  {
    if trace == [] then []
    else Results(trace[..|trace| - 1], respond) + [respond(trace[|trace| - 1].callback, trace[|trace| - 1].args)]
  }

  lemma ResultsSnoc(trace: seq<Invocation>, x: Invocation, respond: (CallbackId, seq<Value>) -> JsValue)
    ensures Results(trace + [x], respond) == Results(trace, respond) + [respond(x.callback, x.args)]
  {
    assert (trace + [x])[..|trace|] == trace;
  }

  /**
   * The value of `finalResult` after the callbacks returned `rs`, starting
   * from `init`: each result is kept when `finalResult` is still undefined.
   */
  function Settle(rs: seq<JsValue>, init: JsValue): (r: JsValue)
    ensures r == init || r in rs
  {
    if rs == [] then init
    else
      var acc := Settle(rs[..|rs| - 1], init);
      if acc == UndefinedValue then rs[|rs| - 1] else acc
  }

  /** One more invocation: its result is kept exactly when `finalResult` is still undefined. */
  lemma SettleSnoc(trace: seq<Invocation>, x: Invocation, respond: (CallbackId, seq<Value>) -> JsValue)
    ensures var acc := Settle(Results(trace, respond), NullValue);
      Settle(Results(trace + [x], respond), NullValue) == if acc == UndefinedValue then respond(x.callback, x.args) else acc
  {
    ResultsSnoc(trace, x, respond);
    var rs := Results(trace + [x], respond);
    assert rs[..|rs| - 1] == Results(trace, respond);
  }

  /**
   * As written, `finalResult` starts at `null`, which is not `undefined`, so
   * no callback result is ever kept and `trigger` returns `null`.
   */
  lemma {:induction false} SettleFromNull(rs: seq<JsValue>)
    ensures Settle(rs, NullValue) == NullValue
  {
    if rs != [] {
      SettleFromNull(rs[..|rs| - 1]);
    }
  }

  /**
   * Starting from `undefined`, the loop keeps the first result that is not
   * `undefined`, and gives `undefined` when every result is.
   */
  lemma {:induction false} SettleFromUndefined(rs: seq<JsValue>)
    ensures (forall i :: 0 <= i < |rs| ==> rs[i] == UndefinedValue) ==> Settle(rs, UndefinedValue) == UndefinedValue
    ensures forall k :: 0 <= k < |rs| && rs[k] != UndefinedValue && (forall i :: 0 <= i < k ==> rs[i] == UndefinedValue) ==>
      Settle(rs, UndefinedValue) == rs[k]
  {
    if rs != [] {
      var p := rs[..|rs| - 1];
      SettleFromUndefined(p);
      forall k | 0 <= k < |rs| && rs[k] != UndefinedValue && (forall i :: 0 <= i < k ==> rs[i] == UndefinedValue)
        ensures Settle(rs, UndefinedValue) == rs[k]
      {
        if k < |p| {
          assert p[k] == rs[k];
          assert forall i :: 0 <= i < k ==> p[i] == UndefinedValue;
        } else {
          assert forall i :: 0 <= i < |p| ==> p[i] == rs[i];
        }
      }
    }
  }

  /** A callback returning a value is not seen as written; it would be with `finalResult` starting undefined. */
  lemma TriggerDropsResult()
    ensures Settle([Other(1)], NullValue) == NullValue
    ensures Settle([Other(1)], UndefinedValue) == Other(1)
  {
    assert [Other(1)][..0] == [];
  }

  /** The event `trigger` fires: the first token of the pattern, resolved. */
  function Target(name: string): (n: Name)
    ensures n.original == ResolveNames(name)[0]
  {
    ResolveName(ResolveNames(name)[0])
  }

  /** A plain event name such as "ready" or "tick" is one token, an event of the base namespace. */
  lemma TargetOfWord(w: string)
    requires IsToken(w) && '.' !in w
    ensures ResolveNames(w) == [w]
    ensures Target(w) == Name(w, w, Base)
  {
    assert Join([w], ' ') == w;
    ResolveCleanTokens([w]);
    ResolvePlainName(w);
  }

  /** The event names the framework triggers are plain words. */
  lemma FrameworkEvents()
    ensures IsToken("ready") && '.' !in "ready"
    ensures IsToken("tick") && '.' !in "tick"
    ensures IsToken("resize") && '.' !in "resize"
  {
  }

  /** `typeof _names === 'undefined' || _names === ''`. */
  predicate Refused(names: Optional<string>) {
    names.Undefined? || names.value == ""
  }

  class EventEmitter {
    var callbacks: Callbacks

    ghost predicate Valid()
      reads this
    {
      WellFormed(callbacks)
    }

    constructor ()
      ensures Valid() && callbacks == Empty
    {
      callbacks := Empty;
    }

    /**
     * `on(names, callback)`: refused without a name or a callback; otherwise
     * the callback is appended for every token of the pattern, in order.
     */
    method On(names: Optional<string>, callback: Optional<CallbackId>) returns (r: Chain)
      requires Valid()
      modifies this
      ensures Valid()
      ensures r == Rejected <==> Refused(names) || callback.Undefined?
      ensures r == Rejected ==> callbacks == old(callbacks)
      ensures r == Itself ==> callbacks == RegisterAll(old(callbacks), ResolveNames(names.value), callback.value)
    {
      if Refused(names) || callback.Undefined? {
        return Rejected;
      }
      var tokens := ResolveNames(names.value);
      var cb := callback.value;
      var i := 0;
      while i < |tokens|
        invariant 0 <= i <= |tokens|
        invariant RegisterAll(callbacks, tokens[i..], cb) == RegisterAll(old(callbacks), tokens, cb)
      {
        var n := ResolveName(tokens[i]);
        OnName(n.namespace, n.value, cb);
        assert tokens[i..][1..] == tokens[i + 1..];
        i := i + 1;
      }
      RegisterAllWellFormed(old(callbacks), tokens, cb);
      return Itself;
    }

    /** The body of `on`'s `forEach` for one resolved token. */
    method OnName(ns: string, v: string, cb: CallbackId)
      modifies this
      ensures callbacks == Register(old(callbacks), ns, v, cb)
    {
      // a missing namespace becomes the last key, a missing list starts empty
      var order := callbacks.order;
      var events: Events := map[];
      if ns in callbacks.table {
        events := callbacks.table[ns];
      } else {
        order := order + [ns];
      }
      var list: seq<CallbackId> := [];
      if v in events {
        list := events[v];
      }
      callbacks := Callbacks(order, callbacks.table[ns := events[v := list + [cb]]]);
    }

    /**
     * `off(names)`: refused without a name; otherwise every token of the
     * pattern is unregistered, in order.
     */
    method Off(names: Optional<string>) returns (r: Chain)
      requires Valid()
      modifies this
      ensures Valid()
      ensures r == Rejected <==> Refused(names)
      ensures r == Rejected ==> callbacks == old(callbacks)
      ensures r == Itself ==> callbacks == UnregisterAll(old(callbacks), ResolveNames(names.value))
    {
      if Refused(names) {
        return Rejected;
      }
      var tokens := ResolveNames(names.value);
      var i := 0;
      while i < |tokens|
        invariant 0 <= i <= |tokens|
        invariant UnregisterAll(callbacks, tokens[i..]) == UnregisterAll(old(callbacks), tokens)
      {
        OffName(ResolveName(tokens[i]));
        assert tokens[i..][1..] == tokens[i + 1..];
        i := i + 1;
      }
      UnregisterAllWellFormed(old(callbacks), tokens);
      return Itself;
    }

    /** The body of `off`'s `forEach` for one resolved token. */
    method OffName(n: Name)
      modifies this
      ensures callbacks == Unregister(old(callbacks), n)
    {
      var ns, v := n.namespace, n.value;
      if ns != Base && v == "" {
        callbacks := DeleteNamespace(callbacks, ns);
      } else if ns == Base {
        OffAcross(v);
      } else if ns in callbacks.table && v in callbacks.table[ns] {
        callbacks := DeleteEvent(callbacks, ns, v);
        if callbacks.table[ns] == map[] {
          callbacks := DeleteNamespace(callbacks, ns);
        }
      }
    }

    /**
     * `for (const namespace in this.callbacks)` in `off` of a base token. Only
     * the namespace being visited is ever deleted, so the keys at the start
     * are the keys visited.
     */
    method OffAcross(v: string)
      modifies this
      ensures callbacks == DropEverywhere(old(callbacks), v)
    {
      var spaces := callbacks.order;
      var j := 0;
      while j < |spaces|
        invariant 0 <= j <= |spaces|
        invariant DropAcross(callbacks, spaces[j..], v) == DropEverywhere(old(callbacks), v)
      {
        var space := spaces[j];
        ghost var visited := callbacks;
        if space in callbacks.table && v in callbacks.table[space] {
          callbacks := DeleteEvent(callbacks, space, v);
          if callbacks.table[space] == map[] {
            callbacks := DeleteNamespace(callbacks, space);
          }
        }
        assert callbacks == DropStep(visited, space, v);
        assert spaces[j..][1..] == spaces[j + 1..];
        j := j + 1;
      }
    }

    /**
     * `trigger(name, args)`: refused without a name. A base-namespace event
     * calls its callbacks namespace by namespace in key order; a named
     * namespace calls its own list, returns the emitter for a namespace-only
     * name and throws when it has no such event. The result is `null`
     * whatever the callbacks return.
     */
    method Trigger(name: Optional<string>, args: Args, respond: (CallbackId, seq<Value>) -> JsValue)
        returns (outcome: Outcome, trace: seq<Invocation>)
      requires Valid()
      ensures Refused(name) ==> outcome == TriggerRejected && trace == []
      ensures !Refused(name) && Target(name.value).namespace == Base ==>
        outcome == Returned(NullValue) && trace == Calls(Fanout(callbacks, Target(name.value).value), ArgList(args))
      ensures !Refused(name) && Target(name.value).namespace != Base ==>
        var n := Target(name.value);
        if n.namespace !in callbacks.table then outcome == Returned(NullValue) && trace == []
        else if n.value == "" then outcome == TriggerItself && trace == []
        else if n.value !in callbacks.table[n.namespace] then outcome == TypeError && trace == []
        else outcome == Returned(NullValue) && trace == Calls(callbacks.table[n.namespace][n.value], ArgList(args))
      ensures outcome.Returned? ==> outcome.value == Settle(Results(trace, respond), NullValue)
    {
      trace := [];
      if Refused(name) {
        return TriggerRejected, trace;
      }
      var finalResult := NullValue;
      var a := ArgList(args);
      var n := Target(name.value);
      var v := n.value;
      if n.namespace == Base {
        trace, finalResult := CallAcross(callbacks, v, a, respond);
      } else if n.namespace in callbacks.table {
        if v == "" {
          return TriggerItself, trace;
        }
        if v !in callbacks.table[n.namespace] {
          return TypeError, trace;
        }
        trace, finalResult := CallEach(callbacks.table[n.namespace][v], a, respond, trace, finalResult);
      }
      SettleFromNull(Results(trace, respond));
      return Returned(finalResult), trace;
    }

    /** `trigger(word)` with no arguments, as the framework's classes call it, for a plain event name. */
    method Emit(word: string) returns (trace: seq<Invocation>)
      requires Valid()
      requires word != "" && IsToken(word) && '.' !in word
      ensures trace == Calls(Fanout(callbacks, word), [])
    {
      TargetOfWord(word);
      var outcome;
      outcome, trace := Trigger(Defined(word), NotArray, Discard);
    }
  }

  /**
   * The loop over namespaces of a base-namespace `trigger`: each namespace
   * that has a list for `v` has it called, in key order.
   */
  method CallAcross(c: Callbacks, v: string, args: seq<Value>, respond: (CallbackId, seq<Value>) -> JsValue)
      returns (trace: seq<Invocation>, finalResult: JsValue)
    ensures trace == Calls(Fanout(c, v), args)
    ensures finalResult == Settle(Results(trace, respond), NullValue)
  {
    trace, finalResult := [], NullValue;
    var spaces := c.order;
    var j := 0;
    while j < |spaces|
      invariant 0 <= j <= |spaces|
      invariant trace == Calls(Gather(spaces[..j], c, v), args)
      invariant finalResult == Settle(Results(trace, respond), NullValue)
    {
      var space := spaces[j];
      var list := if space in c.table && v in c.table[space] then c.table[space][v] else [];
      GatherStep(spaces, j, c, v, args);
      trace, finalResult := CallEach(list, args, respond, trace, finalResult);
      j := j + 1;
    }
    assert spaces[..j] == spaces;
  }

  /** One more namespace visited adds the calls of its list for `v`. */
  lemma GatherStep(o: seq<string>, j: nat, c: Callbacks, v: string, args: seq<Value>)
    requires j < |o|
    ensures Calls(Gather(o[..j + 1], c, v), args) == Calls(Gather(o[..j], c, v), args) + Calls(List(c, o[j], v), args)
  {
    assert o[..j + 1] == o[..j] + [o[j]];
    GatherAppend(o[..j], [o[j]], c, v);
    assert [o[j]][1..] == [];
    assert Gather([o[j]], c, v) == List(c, o[j], v);
    CallsAppend(Gather(o[..j], c, v), List(c, o[j], v), args);
  }

  /**
   * The `forEach` over one callback list: each callback is applied to
   * `args`, and its result is kept while `finalResult` is undefined.
   */
  method CallEach(list: seq<CallbackId>, args: seq<Value>, respond: (CallbackId, seq<Value>) -> JsValue,
                  trace0: seq<Invocation>, result0: JsValue)
      returns (trace: seq<Invocation>, finalResult: JsValue)
    requires result0 == Settle(Results(trace0, respond), NullValue)
    ensures trace == trace0 + Calls(list, args)
    ensures finalResult == Settle(Results(trace, respond), NullValue)
  {
    trace, finalResult := trace0, result0;
    var k := 0;
    while k < |list|
      invariant 0 <= k <= |list|
      invariant trace == trace0 + Calls(list[..k], args)
      invariant finalResult == Settle(Results(trace, respond), NullValue)
    {
      var result := respond(list[k], args);
      CallsSnoc(list, k, args);
      ghost var prev := trace;
      trace := trace + [Invocation(list[k], args)];
      SettleSnoc(prev, Invocation(list[k], args), respond);
      if finalResult == UndefinedValue {
        finalResult := result;
      }
      k := k + 1;
    }
    assert list[..k] == list;
  }
}
