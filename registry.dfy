/**
 * The emitter's `callbacks` object as a value: namespace -> event name ->
 * ordered list of callback ids, and what `on`, `off` and `trigger` do to it
 * or read from it, one token at a time.
 *
 * A JavaScript object enumerates its keys in insertion order, and `trigger`
 * fans out over the namespaces in that order, so the namespaces are kept in
 * the sequence `order` beside the `table`.
 */
module Registry {
  import opened Names

  /** A registered callback, identified by an opaque id (JavaScript compares functions by identity). */
  type CallbackId = nat

  type Events = map<string, seq<CallbackId>>

  datatype Callbacks = Callbacks(order: seq<string>, table: map<string, Events>)

  const Empty: Callbacks := Callbacks([], map[])

  predicate Distinct(s: seq<string>) {
    forall i, j :: 0 <= i < j < |s| ==> s[i] != s[j]
  }

  /**
   * The shape `on` and `off` keep: the key order lists each namespace once,
   * no namespace is left without events and no event without callbacks.
   */
  ghost predicate WellFormed(c: Callbacks) {
    && Distinct(c.order)
    && (forall ns :: ns in c.table <==> ns in c.order)
    && (forall ns :: ns in c.table ==> c.table[ns] != map[])
    && (forall ns, v :: ns in c.table && v in c.table[ns] ==> c.table[ns][v] != [])
  }

  /** The callbacks registered for event `v` in namespace `ns`, oldest first. */
  function List(c: Callbacks, ns: string, v: string): seq<CallbackId> {
    if ns in c.table && v in c.table[ns] then c.table[ns][v] else []
  }

  /** The keys of `s` that are in `keep`, in their order in `s`. */
  function Retain(s: seq<string>, keep: set<string>): seq<string> {
    if s == [] then [] else (if s[0] in keep then [s[0]] else []) + Retain(s[1..], keep)
  }

  lemma {:induction false} RetainMembers(s: seq<string>, keep: set<string>)
    ensures forall x :: x in Retain(s, keep) <==> x in s && x in keep
  {
    if s != [] {
      RetainMembers(s[1..], keep);
    }
  }

  lemma {:induction false} RetainDistinct(s: seq<string>, keep: set<string>)
    ensures Distinct(s) ==> Distinct(Retain(s, keep))
  {
    if s != [] && Distinct(s) {
      RetainDistinct(s[1..], keep);
      RetainMembers(s[1..], keep);
      var t := Retain(s[1..], keep);
      assert s[0] !in s[1..];
      if s[0] in keep {
        forall i, j | 0 <= i < j < |[s[0]] + t| ensures ([s[0]] + t)[i] != ([s[0]] + t)[j] {
          if i == 0 {
            assert ([s[0]] + t)[j] == t[j - 1];
          }
        }
      }
    }
  }

  lemma {:induction false} RetainAll(s: seq<string>, keep: set<string>)
    requires forall x :: x in s ==> x in keep
    ensures Retain(s, keep) == s
  {
    if s != [] {
      RetainAll(s[1..], keep);
    }
  }

  lemma {:induction false} RetainRetain(s: seq<string>, a: set<string>, b: set<string>)
    ensures Retain(Retain(s, a), b) == Retain(s, a * b)
  {
    if s != [] {
      RetainRetain(s[1..], a, b);
      RetainAppend(if s[0] in a then [s[0]] else [], Retain(s[1..], a), b);
    }
  }

  lemma {:induction false} RetainAppend(s: seq<string>, t: seq<string>, keep: set<string>)
    ensures Retain(s + t, keep) == Retain(s, keep) + Retain(t, keep)
  {
    if s == [] {
      assert s + t == t;
    } else {
      assert (s + t)[0] == s[0] && (s + t)[1..] == s[1..] + t;
      RetainAppend(s[1..], t, keep);
      var head := if s[0] in keep then [s[0]] else [];
      assert Retain(s + t, keep) == head + Retain(s[1..] + t, keep);
      assert Retain(s, keep) == head + Retain(s[1..], keep);
    }
  }

  /**
   * `on` for one resolved token (EventEmitter.ts:25-32): append `cb` to the
   * list of `v` in `ns`, creating the namespace (as the last key) and the
   * list when they are missing. No other list changes, and nothing is
   * deduplicated.
   */
  function Register(c: Callbacks, ns: string, v: string, cb: CallbackId): (r: Callbacks)
    ensures List(r, ns, v) == List(c, ns, v) + [cb]
    ensures forall x, w :: (x != ns || w != v) ==> List(r, x, w) == List(c, x, w)
    ensures r.table.Keys == c.table.Keys + {ns}
    ensures ns in c.table ==> r.order == c.order
    ensures ns !in c.table ==> r.order == c.order + [ns]
  {
    var events := if ns in c.table then c.table[ns] else map[];
    var list := if v in events then events[v] else [];
    Callbacks(if ns in c.table then c.order else c.order + [ns], c.table[ns := events[v := list + [cb]]])
  }

  /** `on` for one token keeps the shape of the table. */
  lemma RegisterWellFormed(c: Callbacks, ns: string, v: string, cb: CallbackId)
    requires WellFormed(c)
    ensures WellFormed(Register(c, ns, v, cb))
  {
    var r := Register(c, ns, v, cb);
    if ns !in c.table {
      assert ns !in c.order;
      forall i, j | 0 <= i < j < |r.order| ensures r.order[i] != r.order[j] {
        if j == |c.order| {
          assert r.order[i] == c.order[i];
        }
      }
    }
  }

  /** `on` over all tokens of a pattern, in order. */
  function RegisterAll(c: Callbacks, tokens: seq<string>, cb: CallbackId): (r: Callbacks)
    ensures c.order <= r.order
    decreases |tokens|
  {
    if tokens == [] then c
    else
      var n := ResolveName(tokens[0]);
      RegisterAll(Register(c, n.namespace, n.value, cb), tokens[1..], cb)
  }

  lemma {:induction false} RegisterAllWellFormed(c: Callbacks, tokens: seq<string>, cb: CallbackId)
    requires WellFormed(c)
    ensures WellFormed(RegisterAll(c, tokens, cb))
    decreases |tokens|
  {
    if tokens != [] {
      var n := ResolveName(tokens[0]);
      RegisterWellFormed(c, n.namespace, n.value, cb);
      RegisterAllWellFormed(Register(c, n.namespace, n.value, cb), tokens[1..], cb);
    }
  }

  /** How many of the tokens resolve to event `v` in namespace `ns`. */
  function Named(tokens: seq<string>, ns: string, v: string): nat {
    if tokens == [] then 0
    else
      var n := ResolveName(tokens[0]);
      (if n.namespace == ns && n.value == v then 1 else 0) + Named(tokens[1..], ns, v)
  }

  function Repeat(cb: CallbackId, k: nat): seq<CallbackId> {
    if k == 0 then [] else [cb] + Repeat(cb, k - 1)
  }

  /**
   * After `on(pattern, cb)` every list has grown by one copy of `cb` per
   * token naming it, at its end, and by nothing else.
   */
  lemma {:induction false} RegisterAllAppends(c: Callbacks, tokens: seq<string>, cb: CallbackId, ns: string, v: string)
    ensures List(RegisterAll(c, tokens, cb), ns, v) == List(c, ns, v) + Repeat(cb, Named(tokens, ns, v))
    decreases |tokens|
  {
    if tokens != [] {
      var n := ResolveName(tokens[0]);
      var c' := Register(c, n.namespace, n.value, cb);
      RegisterAllAppends(c', tokens[1..], cb, ns, v);
      var k := Named(tokens[1..], ns, v);
      assert RegisterAll(c, tokens, cb) == RegisterAll(c', tokens[1..], cb);
      if n.namespace == ns && n.value == v {
        assert Named(tokens, ns, v) == k + 1;
        assert List(c', ns, v) == List(c, ns, v) + [cb];
        AppendRepeat(List(c, ns, v), cb, k);
      } else {
        assert Named(tokens, ns, v) == k;
        assert List(c', ns, v) == List(c, ns, v);
      }
    }
  }

  lemma AppendRepeat(l: seq<CallbackId>, cb: CallbackId, k: nat)
    ensures l + [cb] + Repeat(cb, k) == l + Repeat(cb, k + 1)
  {
    assert Repeat(cb, k + 1) == [cb] + Repeat(cb, k);
  }

  /** The callbacks `trigger` invokes for event `v` over the namespaces `order`. */
  function Gather(order: seq<string>, c: Callbacks, v: string): (r: seq<CallbackId>)
    ensures forall cb :: cb in r <==> exists ns :: ns in order && cb in List(c, ns, v)
  {
    if order == [] then [] else List(c, order[0], v) + Gather(order[1..], c, v)
  }

  /** What `trigger(v)` on the base namespace invokes: each namespace's list for `v`, namespace by namespace. */
  function Fanout(c: Callbacks, v: string): (r: seq<CallbackId>)
    ensures forall cb :: cb in r <==> exists ns :: ns in c.order && cb in List(c, ns, v)
  {
    Gather(c.order, c, v)
  }

  lemma {:induction false} GatherAppend(o1: seq<string>, o2: seq<string>, c: Callbacks, v: string)
    ensures Gather(o1 + o2, c, v) == Gather(o1, c, v) + Gather(o2, c, v)
  {
    if o1 == [] {
      assert o1 + o2 == o2;
    } else {
      assert (o1 + o2)[1..] == o1[1..] + o2;
      GatherAppend(o1[1..], o2, c, v);
    }
  }

  lemma {:induction false} GatherSame(o: seq<string>, c1: Callbacks, c2: Callbacks, v: string)
    requires forall x :: x in o ==> List(c1, x, v) == List(c2, x, v)
    ensures Gather(o, c1, v) == Gather(o, c2, v)
  {
    if o != [] {
      GatherSame(o[1..], c1, c2, v);
    }
  }

  lemma {:induction false} GatherRetain(o: seq<string>, keep: set<string>, c: Callbacks, v: string)
    requires forall x :: x in o && x !in keep ==> List(c, x, v) == []
    ensures Gather(Retain(o, keep), c, v) == Gather(o, c, v)
  {
    if o != [] {
      GatherRetain(o[1..], keep, c, v);
      RetainAppend([o[0]], o[1..], keep);
      assert [o[0]] + o[1..] == o;
      GatherAppend(if o[0] in keep then [o[0]] else [], Retain(o[1..], keep), c, v);
    }
  }

  lemma {:induction false} GatherNothing(o: seq<string>, c: Callbacks, v: string)
    requires forall x :: x in o ==> List(c, x, v) == []
    ensures Gather(o, c, v) == []
  {
    if o != [] {
      GatherNothing(o[1..], c, v);
    }
  }

  /** A namespace listed once splits the key order into what comes before it and after it. */
  lemma SplitOrder(o: seq<string>, ns: string) returns (o1: seq<string>, o2: seq<string>)
    requires Distinct(o) && ns in o
    ensures o == o1 + [ns] + o2
    ensures ns !in o1 && ns !in o2
  {
    var k :| 0 <= k < |o| && o[k] == ns;
    o1, o2 := o[..k], o[k + 1..];
    assert o == o1 + [ns] + o2;
  }

  /**
   * `on` followed by `trigger` on the base namespace: the new callback is
   * invoked exactly once more; with a namespace that did not exist yet it is
   * invoked last. Other events fire as before.
   */
  lemma FanoutAfterRegister(c: Callbacks, ns: string, v: string, cb: CallbackId)
    requires WellFormed(c)
    ensures multiset(Fanout(Register(c, ns, v, cb), v)) == multiset(Fanout(c, v)) + multiset{cb}
    ensures ns !in c.table ==> Fanout(Register(c, ns, v, cb), v) == Fanout(c, v) + [cb]
    ensures forall w :: w != v ==> Fanout(Register(c, ns, v, cb), w) == Fanout(c, w)
  {
    forall w | w != v ensures Fanout(Register(c, ns, v, cb), w) == Fanout(c, w) {
      FanoutOtherAfterRegister(c, ns, v, cb, w);
    }
    if ns in c.table {
      FanoutKnownNamespace(c, ns, v, cb);
    } else {
      FanoutNewNamespace(c, ns, v, cb);
    }
  }

  lemma FanoutOtherAfterRegister(c: Callbacks, ns: string, v: string, cb: CallbackId, w: string)
    requires w != v
    ensures Fanout(Register(c, ns, v, cb), w) == Fanout(c, w)
  {
    var r := Register(c, ns, v, cb);
    if ns in c.table {
      GatherSame(c.order, r, c, w);
    } else {
      GatherAppend(c.order, [ns], r, w);
      GatherSame(c.order, r, c, w);
      assert Gather([ns], r, w) == List(r, ns, w);
    }
  }

  lemma FanoutNewNamespace(c: Callbacks, ns: string, v: string, cb: CallbackId)
    requires ns !in c.table && ns !in c.order
    ensures Fanout(Register(c, ns, v, cb), v) == Fanout(c, v) + [cb]
  {
    var r := Register(c, ns, v, cb);
    GatherAppend(c.order, [ns], r, v);
    GatherSame(c.order, r, c, v);
    assert Gather([ns], r, v) == List(r, ns, v);
  }

  lemma FanoutKnownNamespace(c: Callbacks, ns: string, v: string, cb: CallbackId)
    requires WellFormed(c) && ns in c.table
    ensures multiset(Fanout(Register(c, ns, v, cb), v)) == multiset(Fanout(c, v)) + multiset{cb}
  {
    var o1, o2 := SplitOrder(c.order, ns);
    FanoutRegisterInPlace(c, o1, ns, o2, v, cb);
  }

  /** A key of a duplicate-free order occurs in neither part around it. */
  lemma DistinctSplit(o1: seq<string>, ns: string, o2: seq<string>)
    requires Distinct(o1 + [ns] + o2)
    ensures ns !in o1 && ns !in o2
  {
    var o := o1 + [ns] + o2;
    assert o[|o1|] == ns;
    forall i | 0 <= i < |o1| ensures o1[i] != ns {
      assert o[i] == o1[i];
    }
    forall i | 0 <= i < |o2| ensures o2[i] != ns {
      assert o[|o1| + 1 + i] == o2[i];
    }
  }

  /**
   * `on` in a namespace that already exists, followed by a base `trigger`:
   * the new callback is invoked right after that namespace's old list, and
   * the namespaces before and after it fire as before, in their places.
   */
  lemma FanoutRegisterInPlace(c: Callbacks, o1: seq<string>, ns: string, o2: seq<string>, v: string, cb: CallbackId)
    requires WellFormed(c) && c.order == o1 + [ns] + o2
    ensures Fanout(c, v) == Gather(o1, c, v) + List(c, ns, v) + Gather(o2, c, v)
    ensures Fanout(Register(c, ns, v, cb), v) == Gather(o1, c, v) + List(c, ns, v) + [cb] + Gather(o2, c, v)
  {
    DistinctSplit(o1, ns, o2);
    assert ns in c.order;
    GatherSplit(o1, ns, o2, c, v);
    RegisterSplit(c, o1, ns, o2, v, cb);
  }

  lemma RegisterSplit(c: Callbacks, o1: seq<string>, ns: string, o2: seq<string>, v: string, cb: CallbackId)
    requires ns in c.table && ns !in o1 && ns !in o2
    ensures Gather(o1 + [ns] + o2, Register(c, ns, v, cb), v) == Gather(o1, c, v) + List(c, ns, v) + [cb] + Gather(o2, c, v)
  {
    var r := Register(c, ns, v, cb);
    GatherSplit(o1, ns, o2, r, v);
    GatherSame(o1, r, c, v);
    GatherSame(o2, r, c, v);
  }

  lemma GatherSplit(o1: seq<string>, ns: string, o2: seq<string>, c: Callbacks, v: string)
    ensures Gather(o1 + [ns] + o2, c, v) == Gather(o1, c, v) + List(c, ns, v) + Gather(o2, c, v)
  {
    GatherAppend(o1 + [ns], o2, c, v);
    GatherAppend(o1, [ns], c, v);
    assert Gather([ns], c, v) == List(c, ns, v);
  }

  /** `delete callbacks[ns]`: the namespace leaves the table and the key order. */
  function DeleteNamespace(c: Callbacks, ns: string): (r: Callbacks)
    ensures ns !in r.table
    ensures forall x, w :: x != ns ==> List(r, x, w) == List(c, x, w)
    ensures r.table.Keys == c.table.Keys - {ns}
    ensures r.order == Retain(c.order, r.table.Keys)
  {
    Callbacks(Retain(c.order, c.table.Keys - {ns}), c.table - {ns})
  }

  lemma DeleteNamespaceWellFormed(c: Callbacks, ns: string)
    requires WellFormed(c)
    ensures WellFormed(DeleteNamespace(c, ns))
  {
    RetainMembers(c.order, c.table.Keys - {ns});
    RetainDistinct(c.order, c.table.Keys - {ns});
  }

  /** `delete callbacks[ns][v]`. */
  function DeleteEvent(c: Callbacks, ns: string, v: string): Callbacks
    requires ns in c.table
  {
    Callbacks(c.order, c.table[ns := c.table[ns] - {v}])
  }

  /**
   * `off` of one event in one namespace (EventEmitter.ts:82-86): the list
   * goes, every other list stays, and the namespace is pruned when it has
   * no event left.
   */
  function DropEvent(c: Callbacks, ns: string, v: string): (r: Callbacks)
    requires ns in c.table
    ensures List(r, ns, v) == []
    ensures forall x, w :: (x != ns || w != v) ==> List(r, x, w) == List(c, x, w)
    ensures r.table.Keys <= c.table.Keys
  {
    var d := DeleteEvent(c, ns, v);
    if d.table[ns] == map[] then
      assert forall w :: w != v ==> w !in c.table[ns] by {
        forall w | w != v && w in c.table[ns] ensures w in d.table[ns] { }
      }
      DeleteNamespace(d, ns)
    else d
  }

  /** Pruning keeps the shape, and the surviving namespaces keep their order. */
  lemma DropEventWellFormed(c: Callbacks, ns: string, v: string)
    requires WellFormed(c) && ns in c.table
    ensures WellFormed(DropEvent(c, ns, v))
    ensures DropEvent(c, ns, v).order == Retain(c.order, DropEvent(c, ns, v).table.Keys)
  {
    var d := DeleteEvent(c, ns, v);
    if d.table[ns] == map[] {
      var r := DeleteNamespace(d, ns);
      assert d.table.Keys == c.table.Keys;
      assert r.order == Retain(c.order, c.table.Keys - {ns});
      RetainMembers(c.order, c.table.Keys - {ns});
      RetainDistinct(c.order, c.table.Keys - {ns});
    } else {
      assert DropEvent(c, ns, v) == d;
      assert d.table.Keys == c.table.Keys;
      RetainAll(c.order, c.table.Keys);
    }
  }

  /** One pass of the loop over namespaces in `off` of a base token (EventEmitter.ts:64-73). */
  function DropStep(c: Callbacks, ns: string, v: string): (r: Callbacks)
    ensures List(r, ns, v) == []
    ensures forall x, w :: (x != ns || w != v) ==> List(r, x, w) == List(c, x, w)
    ensures r.table.Keys <= c.table.Keys
  {
    if ns in c.table && v in c.table[ns] then DropEvent(c, ns, v) else c
  }

  /** The loop over namespaces in `off` of a base token, over a snapshot `nss` of the key order. */
  function DropAcross(c: Callbacks, nss: seq<string>, v: string): (r: Callbacks)
    ensures forall x, w :: List(r, x, w) == List(c, x, w) || (w == v && List(r, x, w) == [])
    decreases |nss|
  {
    if nss == [] then c else DropAcross(DropStep(c, nss[0], v), nss[1..], v)
  }

  /** `off` of a base token: event `v` is deleted from every namespace. */
  function DropEverywhere(c: Callbacks, v: string): (r: Callbacks)
    ensures forall x :: x in c.order ==> List(r, x, v) == []
    ensures forall x, w :: w != v ==> List(r, x, w) == List(c, x, w)
    ensures r.table.Keys <= c.table.Keys
  {
    DropAcrossLists(c, c.order, v);
    DropAcross(c, c.order, v)
  }

  lemma {:induction false} DropAcrossLists(c: Callbacks, nss: seq<string>, v: string)
    ensures forall x :: x in nss ==> List(DropAcross(c, nss, v), x, v) == []
    ensures forall x, w :: (x !in nss || w != v) ==> List(DropAcross(c, nss, v), x, w) == List(c, x, w)
    ensures DropAcross(c, nss, v).table.Keys <= c.table.Keys
    decreases |nss|
  {
    if nss != [] {
      var c' := DropStep(c, nss[0], v);
      DropAcrossLists(c', nss[1..], v);
      assert List(c', nss[0], v) == [];
    }
  }

  lemma {:induction false} DropAcrossWellFormed(c: Callbacks, nss: seq<string>, v: string)
    requires WellFormed(c)
    ensures WellFormed(DropAcross(c, nss, v))
    ensures DropAcross(c, nss, v).order == Retain(c.order, DropAcross(c, nss, v).table.Keys)
    decreases |nss|
  {
    if nss == [] {
      RetainAll(c.order, c.table.Keys);
    } else {
      var c' := DropStep(c, nss[0], v);
      if nss[0] in c.table && v in c.table[nss[0]] {
        DropEventWellFormed(c, nss[0], v);
      } else {
        RetainAll(c.order, c.table.Keys);
      }
      DropAcrossWellFormed(c', nss[1..], v);
      DropAcrossLists(c', nss[1..], v);
      var r := DropAcross(c', nss[1..], v);
      RetainRetain(c.order, c'.table.Keys, r.table.Keys);
      assert c'.table.Keys * r.table.Keys == r.table.Keys;
    }
  }

  /**
   * `off(v)` with a base token: no namespace holds `v` any more, every
   * other event keeps its list, namespaces left empty are gone and the
   * others keep their order.
   */
  lemma OffEverywhere(c: Callbacks, v: string)
    requires WellFormed(c)
    ensures forall x :: List(DropEverywhere(c, v), x, v) == []
    ensures forall x, w :: w != v ==> List(DropEverywhere(c, v), x, w) == List(c, x, w)
    ensures DropEverywhere(c, v).order == Retain(c.order, DropEverywhere(c, v).table.Keys)
  {
    DropAcrossLists(c, c.order, v);
    DropAcrossWellFormed(c, c.order, v);
  }

  /** After `off(v)`, `trigger(v)` invokes nothing, and every other event fires as before. */
  lemma FanoutAfterOffEverywhere(c: Callbacks, v: string)
    requires WellFormed(c)
    ensures Fanout(DropEverywhere(c, v), v) == []
    ensures forall w :: w != v ==> Fanout(DropEverywhere(c, v), w) == Fanout(c, w)
  {
    var r := DropEverywhere(c, v);
    OffEverywhere(c, v);
    GatherNothing(r.order, r, v);
    forall w | w != v ensures Fanout(r, w) == Fanout(c, w) {
      RetainMembers(c.order, r.table.Keys);
      GatherSame(r.order, r, c, w);
      GatherRetain(c.order, r.table.Keys, c, w);
    }
  }

  /** Leaving out one namespace listed once, and nothing else, cuts it out of the key order. */
  lemma RetainSplit(o1: seq<string>, ns: string, o2: seq<string>, keep: set<string>)
    requires ns !in keep
    requires forall x :: x in o1 ==> x in keep
    requires forall x :: x in o2 ==> x in keep
    ensures Retain(o1 + [ns] + o2, keep) == o1 + o2
  {
    RetainAppend(o1 + [ns], o2, keep);
    RetainAppend(o1, [ns], keep);
    RetainAll(o1, keep);
    RetainAll(o2, keep);
    assert [ns][1..] == [];
    assert Retain([ns], keep) == [] + Retain([], keep) == [];
    assert Retain(o1 + [ns], keep) == o1;
  }

  /**
   * After `off(".ns")` the namespace is gone: `trigger(v)` invokes the same
   * callbacks less exactly those that were registered for `v` in `ns`.
   */
  lemma FanoutAfterDeleteNamespace(c: Callbacks, ns: string, v: string)
    requires WellFormed(c)
    ensures ns !in DeleteNamespace(c, ns).table
    ensures multiset(Fanout(c, v)) == multiset(Fanout(DeleteNamespace(c, ns), v)) + multiset(List(c, ns, v))
  {
    var r := DeleteNamespace(c, ns);
    if ns in c.order {
      var o1, o2 := SplitOrder(c.order, ns);
      FanoutDeleteInPlace(c, o1, ns, o2, v);
      GatherSplit(o1, ns, o2, c, v);
    } else {
      RetainAll(c.order, c.table.Keys - {ns});
      GatherSame(c.order, r, c, v);
    }
  }

  /**
   * `off(".ns")` cuts the namespace out of the key order in place, and a
   * base `trigger` then invokes the namespaces before it and after it, as
   * before and in the same order.
   */
  lemma FanoutDeleteInPlace(c: Callbacks, o1: seq<string>, ns: string, o2: seq<string>, v: string)
    requires WellFormed(c) && c.order == o1 + [ns] + o2
    ensures DeleteNamespace(c, ns).order == o1 + o2
    ensures Fanout(DeleteNamespace(c, ns), v) == Gather(o1, c, v) + Gather(o2, c, v)
  {
    DistinctSplit(o1, ns, o2);
    var r := DeleteNamespace(c, ns);
    var keep := c.table.Keys - {ns};
    RetainSplit(o1, ns, o2, keep);
    GatherAppend(o1, o2, r, v);
    GatherSame(o1, r, c, v);
    GatherSame(o2, r, c, v);
  }

  /** `off` for one resolved token (EventEmitter.ts:54-87). */
  function Unregister(c: Callbacks, n: Name): (r: Callbacks)
    ensures r.table.Keys <= c.table.Keys
    ensures forall x, w :: List(r, x, w) == List(c, x, w) || List(r, x, w) == []
  {
    if n.namespace != Base && n.value == "" then DeleteNamespace(c, n.namespace)
    else if n.namespace == Base then DropEverywhere(c, n.value)
    else if n.namespace in c.table && n.value in c.table[n.namespace] then DropEvent(c, n.namespace, n.value)
    else c
  }

  lemma UnregisterWellFormed(c: Callbacks, n: Name)
    requires WellFormed(c)
    ensures WellFormed(Unregister(c, n))
  {
    if n.namespace != Base && n.value == "" {
      DeleteNamespaceWellFormed(c, n.namespace);
    } else if n.namespace == Base {
      DropAcrossWellFormed(c, c.order, n.value);
    } else if n.namespace in c.table && n.value in c.table[n.namespace] {
      DropEventWellFormed(c, n.namespace, n.value);
    }
  }

  /** `off` over all tokens of a pattern, in order. */
  function UnregisterAll(c: Callbacks, tokens: seq<string>): (r: Callbacks)
    ensures r.table.Keys <= c.table.Keys
    ensures forall x, w :: List(r, x, w) == List(c, x, w) || List(r, x, w) == []
    decreases |tokens|
  {
    if tokens == [] then c else UnregisterAll(Unregister(c, ResolveName(tokens[0])), tokens[1..])
  }

  lemma {:induction false} UnregisterAllWellFormed(c: Callbacks, tokens: seq<string>)
    requires WellFormed(c)
    ensures WellFormed(UnregisterAll(c, tokens))
    decreases |tokens|
  {
    if tokens != [] {
      UnregisterWellFormed(c, ResolveName(tokens[0]));
      UnregisterAllWellFormed(Unregister(c, ResolveName(tokens[0])), tokens[1..]);
    }
  }

  /** `off("v.ns")` deletes `v` in `ns` only; every other list is kept. */
  lemma OffInNamespace(c: Callbacks, v: string, ns: string)
    requires ns != Base && v != ""
    ensures var r := Unregister(c, Name(v + "." + ns, v, ns));
      List(r, ns, v) == [] && forall x, w :: (x != ns || w != v) ==> List(r, x, w) == List(c, x, w)
  {
  }
}
