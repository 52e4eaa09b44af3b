/**
 * `Resources` (Resources.ts): a completion counter over a fixed manifest.
 * The constructor dispatches one load per source of a recognised type; the
 * loaders finish in any order, each by calling `SourceLoaded` with its
 * source and the loaded data, and the completion that brings `loaded` up to
 * `toLoad` triggers `ready`.
 */
module Loading {
  import opened Js
  import opened Names
  import opened Registry
  import opened Emitter

  /** One entry of the manifest `sources.json`. */
  datatype Source = Source(name: string, kind: string, path: string)

  /** The three loaders `_setLoaders` creates. */
  datatype Loader = GltfLoader | RgbeLoader | TextureLoader

  /** A loaded asset (a texture or a glTF scene), opaque here. */
  type Data = int

  /** A load handed to a loader by `_startLoading`; its completion calls `SourceLoaded(source, ...)`. */
  datatype Request = Request(loader: Loader, source: Source)

  /** A finished load: the source it was dispatched for and what it produced. */
  datatype Completion = Completion(source: Source, data: Data)

  /** The source types `_startLoading` has a case for. */
  predicate Recognised(kind: string) {
    kind == "texture" || kind == "rgbeTexture" || kind == "gltfModel"
  }

  /** The `switch` of `_startLoading`: the loader for a type, none for any other type. */
  function LoaderFor(kind: string): (r: Optional<Loader>)
    ensures r.Defined? <==> Recognised(kind)
  {
    if kind == "texture" then Defined(TextureLoader)
    else if kind == "rgbeTexture" then Defined(RgbeLoader)
    else if kind == "gltfModel" then Defined(GltfLoader)
    else Undefined
  }

  /** The load dispatched for one source: none for an unrecognised type. */
  function Dispatched(source: Source): seq<Request> {
    match LoaderFor(source.kind)
    case Defined(l) => [Request(l, source)]
    case Undefined => []
  }

  lemma DispatchedByKind(source: Source)
    ensures source.kind == "texture" ==> Dispatched(source) == [Request(TextureLoader, source)]
    ensures source.kind == "rgbeTexture" ==> Dispatched(source) == [Request(RgbeLoader, source)]
    ensures source.kind == "gltfModel" ==> Dispatched(source) == [Request(GltfLoader, source)]
    ensures !Recognised(source.kind) ==> Dispatched(source) == []
  {
  }

  /** The loads `_startLoading` dispatches, in manifest order. */
  function Dispatch(sources: seq<Source>): (r: seq<Request>)
    ensures |r| <= |sources|
    ensures forall q :: q in r ==> q.source in sources && LoaderFor(q.source.kind) == Defined(q.loader)
  {
    if sources == [] then [] else Dispatched(sources[0]) + Dispatch(sources[1..])
  }

  lemma {:induction false} DispatchSnoc(sources: seq<Source>, i: nat)
    requires i < |sources|
    ensures Dispatch(sources[..i + 1]) == Dispatch(sources[..i]) + Dispatched(sources[i])
  {
    assert sources[..i + 1] == sources[..i] + [sources[i]];
    DispatchAppend(sources[..i], [sources[i]]);
    assert [sources[i]][1..] == [];
    assert Dispatch([sources[i]]) == Dispatched(sources[i]) + Dispatch([]);
  }

  lemma {:induction false} DispatchAppend(a: seq<Source>, b: seq<Source>)
    ensures Dispatch(a + b) == Dispatch(a) + Dispatch(b)
  {
    if a == [] {
      assert a + b == b;
    } else {
      assert (a + b)[1..] == a[1..] + b;
      DispatchAppend(a[1..], b);
    }
  }

  /** The sources of a sequence of requests. */
  function Requested(rs: seq<Request>): seq<Source> {
    if rs == [] then [] else [rs[0].source] + Requested(rs[1..])
  }

  /** The sources of a sequence of completions. */
  function Completed(cs: seq<Completion>): seq<Source> {
    if cs == [] then [] else [cs[0].source] + Completed(cs[1..])
  }

  /** The sources that dispatch a load: those of a recognised type, in order. */
  function Loadable(sources: seq<Source>): seq<Source> {
    if sources == [] then []
    else (if Recognised(sources[0].kind) then [sources[0]] else []) + Loadable(sources[1..])
  }

  /**
   * Exactly the sources of a recognised type are dispatched, each once, in
   * manifest order, each to the loader of its type.
   */
  lemma {:induction false} DispatchSpec(sources: seq<Source>)
    ensures Requested(Dispatch(sources)) == Loadable(sources)
    ensures forall r :: r in Dispatch(sources) ==> LoaderFor(r.source.kind) == Defined(r.loader)
  {
    if sources != [] {
      DispatchSpec(sources[1..]);
      RequestedAppend(Dispatched(sources[0]), Dispatch(sources[1..]));
    }
  }

  lemma {:induction false} RequestedAppend(a: seq<Request>, b: seq<Request>)
    ensures Requested(a + b) == Requested(a) + Requested(b)
  {
    if a == [] {
      assert a + b == b;
    } else {
      assert (a + b)[1..] == a[1..] + b;
      RequestedAppend(a[1..], b);
    }
  }

  /** With every type recognised, every source is dispatched. */
  lemma {:induction false} LoadableAll(sources: seq<Source>)
    requires forall i :: 0 <= i < |sources| ==> Recognised(sources[i].kind)
    ensures Loadable(sources) == sources
  {
    if sources != [] {
      LoadableAll(sources[1..]);
    }
  }

  /** A source of an unrecognised type means fewer loads than sources. */
  lemma {:induction false} LoadableFewer(sources: seq<Source>, k: nat)
    requires k < |sources| && !Recognised(sources[k].kind)
    ensures |Loadable(sources)| < |sources|
  {
    if k > 0 {
      LoadableFewer(sources[1..], k - 1);
    } else {
      LoadableAtMost(sources[1..]);
    }
  }

  lemma {:induction false} LoadableAtMost(sources: seq<Source>)
    ensures |Loadable(sources)| <= |sources|
  {
    if sources != [] {
      LoadableAtMost(sources[1..]);
    }
  }

  /** `items` after the completions `cs`: each stores its data under its source's name, the last one winning. */
  function Stored(cs: seq<Completion>): (r: map<string, Data>)
    ensures r == map[] <==> cs == []
  {
    if cs == [] then map[]
    else
      var last := cs[|cs| - 1];
      var m := Stored(cs[..|cs| - 1])[last.source.name := last.data];
      assert last.source.name in m;
      m
  }

  /**
   * An item is present exactly when some completion had its name, and it
   * holds the data of the last such completion.
   */
  lemma {:induction false} StoredLookup(cs: seq<Completion>, name: string)
    ensures name in Stored(cs) <==> exists i :: 0 <= i < |cs| && cs[i].source.name == name
    ensures forall i :: 0 <= i < |cs| && cs[i].source.name == name && (forall j :: i < j < |cs| ==> cs[j].source.name != name) ==>
      name in Stored(cs) && Stored(cs)[name] == cs[i].data
  {
    if cs != [] {
      var p := cs[..|cs| - 1];
      StoredLookup(p, name);
      if cs[|cs| - 1].source.name != name {
        assert name in Stored(cs) <==> name in Stored(p);
        if name in Stored(p) {
          var i :| 0 <= i < |p| && p[i].source.name == name;
          assert cs[i] == p[i];
        }
        if exists i :: 0 <= i < |cs| && cs[i].source.name == name {
          var i :| 0 <= i < |cs| && cs[i].source.name == name;
          assert i < |p| && p[i] == cs[i];
        }
      }
      forall i | 0 <= i < |cs| && cs[i].source.name == name && (forall j :: i < j < |cs| ==> cs[j].source.name != name)
        ensures name in Stored(cs) && Stored(cs)[name] == cs[i].data
      {
        if i < |p| {
          assert p[i] == cs[i];
          assert forall j :: i < j < |p| ==> p[j] == cs[j];
        }
      }
    }
  }

  lemma StoredSnoc(cs: seq<Completion>, c: Completion)
    ensures Stored(cs + [c]) == Stored(cs)[c.source.name := c.data]
  {
    assert (cs + [c])[..|cs|] == cs;
  }

  /** The `ready` flags of the first `n` completions: completion number `k` fires when `k == toLoad`. */
  function Readiness(toLoad: nat, n: nat): (r: seq<bool>)
    ensures |r| == n
    ensures forall k :: 0 <= k < n ==> r[k] == (k + 1 == toLoad)
  {
    if n == 0 then [] else Readiness(toLoad, n - 1) + [n == toLoad]
  }

  function Fired(flags: seq<bool>): nat {
    if flags == [] then 0 else Fired(flags[..|flags| - 1]) + (if flags[|flags| - 1] then 1 else 0)
  }

  /**
   * `ready` fires at most once, and it fires (at the completion numbered
   * `toLoad`) exactly when the manifest is not empty and at least that many
   * completions came in, whatever their order.
   */
  lemma {:induction false} ReadyOnce(toLoad: nat, n: nat)
    ensures Fired(Readiness(toLoad, n)) == if 0 < toLoad <= n then 1 else 0
    ensures 0 < toLoad <= n ==> Readiness(toLoad, n)[toLoad - 1]
  {
    if n > 0 {
      ReadyOnce(toLoad, n - 1);
      var r := Readiness(toLoad, n);
      assert r[..n - 1] == Readiness(toLoad, n - 1);
      if 0 < toLoad < n {
        assert r[toLoad - 1] == Readiness(toLoad, n - 1)[toLoad - 1];
      }
    }
  }

  /**
   * With a source of an unrecognised type, fewer loads are dispatched than
   * `toLoad`; if each dispatched load completes at most once, `ready` never
   * fires.
   */
  lemma NeverReadyWithUnknownType(sources: seq<Source>, cs: seq<Completion>, k: nat)
    requires k < |sources| && !Recognised(sources[k].kind)
    requires multiset(Completed(cs)) <= multiset(Requested(Dispatch(sources)))
    ensures Fired(Readiness(|sources|, |cs|)) == 0
  {
    assert |cs| < |sources| by {
      CompletedLength(cs);
      DispatchSpec(sources);
      LoadableFewer(sources, k);
      SubMultisetSize(Completed(cs), Requested(Dispatch(sources)));
    }
    ReadyOnce(|sources|, |cs|);
  }

  lemma SubMultisetSize(a: seq<Source>, b: seq<Source>)
    requires multiset(a) <= multiset(b)
    ensures |a| <= |b|
  {
    var rest := multiset(b) - multiset(a);
    assert multiset(b) == multiset(a) + rest;
    assert |multiset(b)| == |multiset(a)| + |rest|;
    assert |multiset(a)| == |a| && |multiset(b)| == |b|;
  }

  lemma {:induction false} CompletedLength(cs: seq<Completion>)
    ensures |Completed(cs)| == |cs|
  {
    if cs != [] {
      CompletedLength(cs[1..]);
    }
  }

  /** With an empty manifest, nothing is dispatched and `ready` never fires. */
  lemma NeverReadyWhenEmpty(n: nat)
    ensures Dispatch([]) == []
    ensures Fired(Readiness(0, n)) == 0
  {
    ReadyOnce(0, n);
  }

  /**
   * When the completions are the manifest's dispatched sources, each once, in
   * any order, every dispatched source's name is in `items`.
   */
  lemma AllStoredWhenAllLoaded(sources: seq<Source>, cs: seq<Completion>)
    requires multiset(Completed(cs)) == multiset(Requested(Dispatch(sources)))
    ensures forall s :: s in Loadable(sources) ==> s.name in Stored(cs)
  {
    DispatchSpec(sources);
    forall s | s in Loadable(sources) ensures s.name in Stored(cs) {
      assert s in multiset(Completed(cs));
      var i := CompletedIndex(cs, s);
      StoredLookup(cs, s.name);
    }
  }

  lemma {:induction false} CompletedIndex(cs: seq<Completion>, s: Source) returns (i: nat)
    requires s in Completed(cs)
    ensures i < |cs| && cs[i].source == s
  {
    if cs[0].source == s {
      i := 0;
    } else {
      var k := CompletedIndex(cs[1..], s);
      i := k + 1;
    }
  }

  class Resources {
    const events: EventEmitter
    const sources: seq<Source>
    var toLoad: nat
    var loaded: nat
    var items: map<string, Data>
    /** The loads handed to the loaders, in the order `_startLoading` made them. */
    var requests: seq<Request>
    /** The completions so far, in the order they came in. */
    ghost var completions: seq<Completion>
    /** Whether each completion so far triggered `ready`. */
    ghost var log: seq<bool>

    ghost predicate Valid()
      reads this, events
    {
      && events.Valid()
      && toLoad == |sources|
      && loaded == |completions|
      && items == Stored(completions)
      && log == Readiness(toLoad, loaded)
      && requests == Dispatch(sources)
    }

    /** `toLoad` is the manifest's length, nothing is loaded yet, and every load is dispatched. */
    constructor (manifest: seq<Source>)
      ensures Valid() && fresh(events)
      ensures events.callbacks == Empty
      ensures sources == manifest && toLoad == |manifest| && loaded == 0 && items == map[]
      ensures completions == []
    {
      events := new EventEmitter();
      sources := manifest;
      toLoad := |manifest|;
      loaded := 0;
      items := map[];
      requests := [];
      completions := [];
      log := [];
      new;
      StartLoading();
    }

    /** `_startLoading`: one request per source of a recognised type, to the loader of that type. */
    method StartLoading()
      requires requests == []
      modifies this`requests
      ensures requests == Dispatch(sources)
    {
      var i := 0;
      while i < |sources|
        invariant 0 <= i <= |sources|
        invariant requests == Dispatch(sources[..i])
      {
        var source := sources[i];
        DispatchSnoc(sources, i);
        DispatchedByKind(source);
        if source.kind == "texture" {
          requests := requests + [Request(TextureLoader, source)];
        } else if source.kind == "rgbeTexture" {
          requests := requests + [Request(RgbeLoader, source)];
        } else if source.kind == "gltfModel" {
          // falls through into `default: break`, which adds nothing
          requests := requests + [Request(GltfLoader, source)];
        }
        i := i + 1;
      }
      assert sources[..i] == sources;
    }

    /** `on`, which `Resources` inherits from the emitter: subscribing leaves the loading state alone. */
    method On(names: Optional<string>, callback: Optional<CallbackId>) returns (r: Chain)
      requires Valid()
      modifies events
      ensures Valid()
      ensures r == Rejected <==> Refused(names) || callback.Undefined?
      ensures r == Rejected ==> events.callbacks == old(events.callbacks)
      ensures r == Itself ==> events.callbacks == RegisterAll(old(events.callbacks), ResolveNames(names.value), callback.value)
    {
      r := events.On(names, callback);
    }

    /**
     * `_sourceLoaded(source, data)`: store the item, count it, and trigger
     * `ready` (with no arguments) when the count reaches `toLoad`.
     */
    method SourceLoaded(source: Source, data: Data) returns (ready: bool, trace: seq<Invocation>)
      requires Valid()
      modifies this
      ensures Valid()
      ensures completions == old(completions) + [Completion(source, data)]
      ensures items == old(items)[source.name := data]
      ensures loaded == old(loaded) + 1
      ensures ready <==> loaded == toLoad
      ensures log == old(log) + [ready]
      ensures ready ==> trace == Calls(Fanout(events.callbacks, "ready"), [])
      ensures !ready ==> trace == []
      ensures requests == old(requests)
    {
      StoredSnoc(completions, Completion(source, data));
      items := items[source.name := data];
      loaded := loaded + 1;
      completions := completions + [Completion(source, data)];
      ready := loaded == toLoad;
      log := log + [ready];
      trace := [];
      if ready {
        FrameworkEvents();
        trace := events.Emit("ready");
      }
    }
  }
}
