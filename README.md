# A verified model of the three.js "project code structure" framework

This project models the small application framework in
`threejs-project-code-structure/src/Experience/` and two pieces of
bookkeeping from the bloom demos. It proves properties of the model in
Dafny.

- **EventEmitter.** The name tokeniser (`resolveNames`, `resolveName`) consists of pure functions. The
  table `namespace → event → callbacks` that `on`, `off` and `trigger`
  update or read is a class with a loop per `forEach` / `for…in`.
  - Callbacks are opaque ids.
  - `trigger` returns the ordered trace of the invocations it makes.
  - Namespaces keep their insertion order, because `trigger` visits them in key order.
  - The table as a value, and one `on`/`off` step on it, live in module
    `Registry`. The lemmas there say what survives `on` and `off` and what
    `trigger` then invokes.
- **Resources.** A completion counter over a manifest.
  - `_startLoading` dispatches loads for the recognised types only.
  - The loaders finish in any order, each by calling `SourceLoaded`.
  - `ready` is triggered when `loaded` reaches `toLoad`.
  - Lemmas show that `ready` fires at most once, and exactly when it fires. It never fires for an empty manifest. When each dispatched load completes at most once, it also never fires for a manifest with an unrecognised type.
- **Time.** Integer millisecond clock state, with `Date.now()` as a parameter. The deltas
  telescope to `elapsed`.
- **Sizes.** Viewport state with `pixelRatio = min(devicePixelRatio, 2)`.
- **World.** Subscribes to `ready`, builds environment, floor and fox when the listener runs, and
  guards `update`.
- **bloom-basic demo.** The frame subscriber list (`addFrameLoop`, `removeFrameLoop`, the loop in
  `render` with its delta time) and the hover state machine `intersectMeshes`.
- **bloom demo.** The material stash around the bloom pass, and proof that the darken and
  restore traversals are a round trip. Also the layer toggle of `onPointerDown`.

Modules: `Js` (shared value shapes), `Names`, `Registry`, `Emitter`,
`Loading`, `Clock`, `Viewport`, `Composer`, `BloomBasic`, `Bloom`.

Two behaviours of the code are easy to misread; the model follows what the code does:
- **Return value of `trigger`.** The guard at EventEmitter.ts:124 is written to keep
  the first callback result that is not `undefined`. But `finalResult` starts at
  `null` (EventEmitter.ts:101), so the guard `typeof finalResult === 'undefined'` is
  never true, and `trigger` returns `null` after invoking callbacks.
  `Emitter.SettleFromNull` proves this. `Emitter.SettleFromUndefined` shows
  that starting from `undefined` would keep the first such result.
  `Emitter.TriggerDropsResult` gives the concrete case: one callback returning 1.
- **Readiness.** `ready` is meant to fire once every source has loaded
  (Resources.ts:96). When each dispatched load completes at most once, it never
  fires for an empty manifest or for a manifest that contains a type without a
  loader (`Loading.NeverReadyWhenEmpty`, `Loading.NeverReadyWithUnknownType`).

## Model

All sources are under `threejs-project-code-structure/src/Experience/` unless they start with `src/`.

| member | source | states |
|---|---|---|
| Names.Sanitize | threejs-project-code-structure/src/Experience/Utils/EventEmitter.ts:151 | only characters in `[a-zA-Z0-9 ,/.]` remain, and the result is no longer than the input |
| Names.SanitizeCounts | threejs-project-code-structure/src/Experience/Utils/EventEmitter.ts:151 | each kept character occurs exactly as often as in the input; every other character is gone |
| Names.SanitizeKeepsClean | threejs-project-code-structure/src/Experience/Utils/EventEmitter.ts:151 | a string of kept characters is left unchanged |
| Names.Collapse | threejs-project-code-structure/src/Experience/Utils/EventEmitter.ts:152 | after collapsing, no `,` or `/` remains |
| Names.CollapseRun | threejs-project-code-structure/src/Experience/Utils/EventEmitter.ts:152 | a whole run of `,`/`/` between non-separators becomes exactly one space |
| Names.CollapseKeepsPlain | threejs-project-code-structure/src/Experience/Utils/EventEmitter.ts:152 | a string without separators is unchanged |
| Names.Split | threejs-project-code-structure/src/Experience/Utils/EventEmitter.ts:153 | JavaScript `split` on one character: at least one piece, and no piece contains the separator |
| Names.SplitThenJoin | threejs-project-code-structure/src/Experience/Utils/EventEmitter.ts:153 | joining the pieces with the separator gives the string back |
| Names.JoinThenSplit | threejs-project-code-structure/src/Experience/Utils/EventEmitter.ts:153 | splitting a join of separator-free pieces gives the pieces back |
| Names.SplitHead | threejs-project-code-structure/src/Experience/Utils/EventEmitter.ts:160-163 | the first piece is the prefix up to the first separator, or the whole string |
| Names.ResolveNames | threejs-project-code-structure/src/Experience/Utils/EventEmitter.ts:149-156 | at least one token, and every token consists of letters, digits and `.` only |
| Names.ResolveCleanTokens | threejs-project-code-structure/src/Experience/Utils/EventEmitter.ts:149-156 | clean tokens joined by single spaces resolve to exactly those tokens, empty ones included |
| Names.ResolveNamesCommaSpace | threejs-project-code-structure/src/Experience/Utils/EventEmitter.ts:151-153 | `"a, b"` resolves to `["a", "", "b"]` |
| Names.ResolveName | threejs-project-code-structure/src/Experience/Utils/EventEmitter.ts:158-172 | the original is kept; the value is the text before the first `.`; the namespace is non-empty and has no `.` |
| Names.ResolvePlainName | threejs-project-code-structure/src/Experience/Utils/EventEmitter.ts:164 | a token without `.` is that event in namespace `base` |
| Names.ResolveQualifiedName | threejs-project-code-structure/src/Experience/Utils/EventEmitter.ts:167-169 | `v.ns` and `v.ns.more` name event `v` in namespace `ns`; later segments are ignored |
| Names.ResolveEmptyNamespace | threejs-project-code-structure/src/Experience/Utils/EventEmitter.ts:164-169 | `v.` and `v..x` have an empty second segment and fall back to `base` |
| Registry.Register | threejs-project-code-structure/src/Experience/Utils/EventEmitter.ts:24-32 | the callback is appended to the end of its list, with no deduplication; no other list changes; a new namespace becomes the last key |
| Registry.RegisterWellFormed | threejs-project-code-structure/src/Experience/Utils/EventEmitter.ts:24-32 | one `on` step keeps the entry order duplicate-free, consistent with the table, and without empty entries |
| Registry.RegisterAll | threejs-project-code-structure/src/Experience/Utils/EventEmitter.ts:20-33 | `on` over every token, in order: namespaces are only ever added, at the end of the key order |
| Registry.RegisterAllWellFormed | threejs-project-code-structure/src/Experience/Utils/EventEmitter.ts:20-33 | `on` over all tokens keeps that shape |
| Registry.RegisterAllAppends | threejs-project-code-structure/src/Experience/Utils/EventEmitter.ts:20-33 | after `on(pattern, cb)`, each list has one more `cb` at its end per token naming it, and nothing else |
| Registry.FanoutAfterRegister | threejs-project-code-structure/src/Experience/Utils/EventEmitter.ts:20-130 | after `on`, a base `trigger` invokes the new callback exactly once more; it comes last for a new namespace; other events fire as before |
| Registry.Gather | threejs-project-code-structure/src/Experience/Utils/EventEmitter.ts:116-129 | a callback is invoked iff it is in the list for the event of some visited namespace |
| Registry.Fanout | threejs-project-code-structure/src/Experience/Utils/EventEmitter.ts:116-129 | a base `trigger` invokes a callback iff it is registered for the event in some namespace of the key order |
| Registry.FanoutRegisterInPlace | threejs-project-code-structure/src/Experience/Utils/EventEmitter.ts:20-130 | after `on` in an existing namespace, the new callback is invoked right after that namespace's old list; the namespaces before and after fire as before, in their places |
| Registry.DeleteNamespace | threejs-project-code-structure/src/Experience/Utils/EventEmitter.ts:54-56 | the namespace leaves the table; every other namespace keeps its lists; the key order is the old one without it |
| Registry.DeleteNamespaceWellFormed | threejs-project-code-structure/src/Experience/Utils/EventEmitter.ts:54-56 | deleting a namespace keeps the table's shape |
| Registry.DropEvent | threejs-project-code-structure/src/Experience/Utils/EventEmitter.ts:82-86 | that list is gone, every other list stays, and no namespace is added |
| Registry.DropEventWellFormed | threejs-project-code-structure/src/Experience/Utils/EventEmitter.ts:82-86 | a namespace left empty is pruned; the surviving namespaces keep their order |
| Registry.DropStep | threejs-project-code-structure/src/Experience/Utils/EventEmitter.ts:64-73 | one pass of the loop: the event's list in that namespace is gone, every other list stays, no namespace is added |
| Registry.DropAcross | threejs-project-code-structure/src/Experience/Utils/EventEmitter.ts:63-74 | a run of the loop changes no list except by emptying the lists of the event |
| Registry.DropEverywhere | threejs-project-code-structure/src/Experience/Utils/EventEmitter.ts:61-75 | `off` of a base token: no namespace of the key order keeps a list for the event; other events keep theirs; no namespace is added |
| Registry.DropAcrossLists | threejs-project-code-structure/src/Experience/Utils/EventEmitter.ts:63-74 | the loop over namespaces removes the event from each visited namespace and changes no other list |
| Registry.DropAcrossWellFormed | threejs-project-code-structure/src/Experience/Utils/EventEmitter.ts:63-74 | the loop keeps the shape, and the entry order is the old order restricted to the surviving namespaces |
| Registry.OffEverywhere | threejs-project-code-structure/src/Experience/Utils/EventEmitter.ts:61-75 | `off(v)` with a base token: no namespace holds `v`, every other event keeps its list, and empty namespaces are pruned in order |
| Registry.FanoutAfterOffEverywhere | threejs-project-code-structure/src/Experience/Utils/EventEmitter.ts:61-130 | after `off(v)`, `trigger(v)` invokes nothing; every other event fires exactly as before |
| Registry.FanoutAfterDeleteNamespace | threejs-project-code-structure/src/Experience/Utils/EventEmitter.ts:54-130 | after `off(".ns")`, a base `trigger` invokes the same callbacks, minus exactly those registered in `ns` |
| Registry.FanoutDeleteInPlace | threejs-project-code-structure/src/Experience/Utils/EventEmitter.ts:54-130 | after `off(".ns")`, the key order is the old one with `ns` cut out, and a base `trigger` invokes the namespaces before and after it, in their old order |
| Registry.OffInNamespace | threejs-project-code-structure/src/Experience/Utils/EventEmitter.ts:78-87 | `off("v.ns")` deletes `v` in `ns` only |
| Registry.UnregisterWellFormed | threejs-project-code-structure/src/Experience/Utils/EventEmitter.ts:54-87 | every branch of `off` for one token keeps the shape |
| Registry.Unregister | threejs-project-code-structure/src/Experience/Utils/EventEmitter.ts:54-87 | `off` for one token: no namespace is added, and every list is either kept whole or gone |
| Registry.UnregisterAllWellFormed | threejs-project-code-structure/src/Experience/Utils/EventEmitter.ts:49-89 | `off` over all tokens keeps the shape |
| Registry.UnregisterAll | threejs-project-code-structure/src/Experience/Utils/EventEmitter.ts:49-89 | `off` over every token: no namespace is added, and every list is either kept whole or gone |
| Emitter.CallsAppend | threejs-project-code-structure/src/Experience/Utils/EventEmitter.ts:121-127 | calling two lists one after the other gives the joined traces |
| Emitter.Settle | threejs-project-code-structure/src/Experience/Utils/EventEmitter.ts:124-126 | the final result is the start value or one of the callback results |
| Emitter.SettleFromNull | threejs-project-code-structure/src/Experience/Utils/EventEmitter.ts:101-146 | starting from `null`, no callback result is ever kept: `trigger` returns `null` |
| Emitter.SettleFromUndefined | threejs-project-code-structure/src/Experience/Utils/EventEmitter.ts:124-126 | starting from `undefined`, the guard keeps the first result that is not `undefined`, or `undefined` if there is none |
| Emitter.TriggerDropsResult | threejs-project-code-structure/src/Experience/Utils/EventEmitter.ts:101-126 | the concrete case: a callback returning 1 is seen only if the start is `undefined` |
| Emitter.TargetOfWord | threejs-project-code-structure/src/Experience/Utils/EventEmitter.ts:108-111 | a plain word is one token, an event of namespace `base` |
| Emitter.Target | threejs-project-code-structure/src/Experience/Utils/EventEmitter.ts:108-111 | only the first token of the name counts; `trigger` fires it, resolved |
| Emitter.EventEmitter.constructor | threejs-project-code-structure/src/Experience/Utils/EventEmitter.ts:2 | the table starts empty |
| Emitter.EventEmitter.On | threejs-project-code-structure/src/Experience/Utils/EventEmitter.ts:4-36 | refused, with the table unchanged, iff the names are undefined or empty or the callback is undefined; otherwise the table becomes `on` over every token, in order, and keeps its shape |
| Emitter.EventEmitter.OnName | threejs-project-code-structure/src/Experience/Utils/EventEmitter.ts:22-32 | one token of `on`: the table becomes that token's registration of the old table |
| Emitter.EventEmitter.Off | threejs-project-code-structure/src/Experience/Utils/EventEmitter.ts:38-92 | refused, with the table unchanged, iff the names are undefined or empty; otherwise the table becomes `off` over every token, in order, and keeps its shape |
| Emitter.EventEmitter.OffName | threejs-project-code-structure/src/Experience/Utils/EventEmitter.ts:51-87 | one token of `off`: the table becomes that token's unregistration of the old table, whichever of the three branches applies |
| Emitter.EventEmitter.OffAcross | threejs-project-code-structure/src/Experience/Utils/EventEmitter.ts:63-74 | the `for…in` over a snapshot of the keys leaves the table as deleting the event from every namespace, with pruning, specifies |
| Emitter.EventEmitter.Trigger | threejs-project-code-structure/src/Experience/Utils/EventEmitter.ts:94-147 | covers every case (see the list below the table) |
| Emitter.EventEmitter.Emit | threejs-project-code-structure/src/Experience/Utils/EventEmitter.ts:94-130 | `trigger(word)` with no arguments invokes every callback of `word` across namespaces, with no arguments |
| Emitter.CallAcross | threejs-project-code-structure/src/Experience/Utils/EventEmitter.ts:116-129 | the loop over namespaces produces exactly the base fan-out trace, and `finalResult` follows the guard |
| Emitter.SettleSnoc | threejs-project-code-structure/src/Experience/Utils/EventEmitter.ts:122-126 | one more callback result is kept exactly when `finalResult` is still `undefined` |
| Emitter.CallEach | threejs-project-code-structure/src/Experience/Utils/EventEmitter.ts:121-143 | the `forEach` appends one invocation per callback, in list order, and `finalResult` follows the guard |
| Loading.LoaderFor | threejs-project-code-structure/src/Experience/Utils/Resources.ts:64-87 | a loader exists exactly for `texture`, `rgbeTexture` and `gltfModel` |
| Loading.DispatchedByKind | threejs-project-code-structure/src/Experience/Utils/Resources.ts:64-87 | each recognised type goes to its own loader; `gltfModel` falls through into `default` and adds nothing more; other types dispatch nothing |
| Loading.Dispatch | threejs-project-code-structure/src/Experience/Utils/Resources.ts:62-89 | no more loads than sources; each load is for a source of the manifest, on the loader of its type |
| Loading.DispatchSpec | threejs-project-code-structure/src/Experience/Utils/Resources.ts:62-89 | exactly the sources of recognised types are dispatched, each once, in manifest order, to the loader of their type |
| Loading.LoadableAll | threejs-project-code-structure/src/Experience/Utils/Resources.ts:62-89 | with only recognised types, every source is dispatched |
| Loading.LoadableFewer | threejs-project-code-structure/src/Experience/Utils/Resources.ts:62-89 | one unrecognised type means fewer loads than sources |
| Loading.Stored | threejs-project-code-structure/src/Experience/Utils/Resources.ts:92 | there is no item exactly when nothing has completed |
| Loading.StoredLookup | threejs-project-code-structure/src/Experience/Utils/Resources.ts:92 | an item is present iff some completion had its name; it holds the data of the last such completion, so duplicate names overwrite |
| Loading.Readiness | threejs-project-code-structure/src/Experience/Utils/Resources.ts:94-98 | one flag per completion; completion number `k` fires `ready` exactly when `k == toLoad` |
| Loading.ReadyOnce | threejs-project-code-structure/src/Experience/Utils/Resources.ts:94-98 | `ready` fires at most once; it fires, at completion number `toLoad`, iff `0 < toLoad <= completions`, whatever their order |
| Loading.NeverReadyWithUnknownType | threejs-project-code-structure/src/Experience/Utils/Resources.ts:47-96 | with an unrecognised type, when each dispatched load completes at most once, `ready` never fires |
| Loading.NeverReadyWhenEmpty | threejs-project-code-structure/src/Experience/Utils/Resources.ts:47-96 | an empty manifest dispatches nothing and never fires `ready` |
| Loading.AllStoredWhenAllLoaded | threejs-project-code-structure/src/Experience/Utils/Resources.ts:62-99 | when every dispatched source has completed once, in any order, every one of their names is in `items` |
| Loading.Resources.constructor | threejs-project-code-structure/src/Experience/Utils/Resources.ts:36-49 | `toLoad` is the manifest length, `loaded` is 0, `items` is empty, and every load is dispatched |
| Loading.Resources.StartLoading | threejs-project-code-structure/src/Experience/Utils/Resources.ts:62-89 | the requests are exactly the dispatch of the manifest |
| Loading.Resources.On | threejs-project-code-structure/src/Experience/Utils/EventEmitter.ts:4-36 | `on`, inherited by `Resources`: same outcome and table as the emitter's, and the loading state is untouched |
| Loading.Resources.SourceLoaded | threejs-project-code-structure/src/Experience/Utils/Resources.ts:91-99 | stores the data under the source's name and increments `loaded` by 1; it triggers `ready` with no arguments iff `loaded == toLoad` |
| Clock.DeltasTelescope | threejs-project-code-structure/src/Experience/Utils/Time.ts:32-34 | the deltas sum to the last reading minus the first |
| Clock.DeltasNonNegative | threejs-project-code-structure/src/Experience/Utils/Time.ts:32 | with non-decreasing readings, every delta is at least 0 |
| Clock.Time.constructor | threejs-project-code-structure/src/Experience/Utils/Time.ts:9-12 | `start = current = now`, `elapsed = 0`, `delta = 16` |
| Clock.Time.Tick | threejs-project-code-structure/src/Experience/Utils/Time.ts:28-36 | `delta` is `now` minus the previous `current`, then `current = now`, then `elapsed = current - start`; `start` does not change; `elapsed` is the sum of all deltas and grows when `now` does; then `tick` is triggered with no arguments |
| Viewport.PixelRatio | threejs-project-code-structure/src/Experience/Utils/Sizes.ts:26 | `min(dpr, 2)`: never above 2 or above the dpr, and equal to one of them |
| Viewport.PixelRatioKeepsSmall | threejs-project-code-structure/src/Experience/Utils/Sizes.ts:26 | a dpr of at most 2 is kept as it is |
| Viewport.Sizes.constructor | threejs-project-code-structure/src/Experience/Utils/Sizes.ts:4-8 | the sizes are computed once from the window, before any resize |
| Viewport.Sizes.UpdateSizes | threejs-project-code-structure/src/Experience/Utils/Sizes.ts:23-27 | width and height come from the window; the pixel ratio is capped; the result depends on the window alone (idempotent) |
| Viewport.Sizes.Resize | threejs-project-code-structure/src/Experience/Utils/Sizes.ts:11-14 | all three fields are updated, then `resize` is triggered with no arguments |
| Composer.ReadyReachesListener | threejs-project-code-structure/src/Experience/World/World.ts:11 | after World's `on('ready', …)`, a `ready` trigger invokes the listener exactly once more |
| Composer.World.constructor | threejs-project-code-structure/src/Experience/World/World.ts:7-21 | construction only subscribes the listener to `ready`; no subsystem exists yet |
| Composer.World.OnReady | threejs-project-code-structure/src/Experience/World/World.ts:11-20 | builds a new environment, then floor, then fox, in that order, again on every `ready` |
| Composer.World.Update | threejs-project-code-structure/src/Experience/World/World.ts:31-35 | with a fox, calls `fox.update` exactly once; without one its frame is empty, so nothing changes |
| Composer.Fox.Update | threejs-project-code-structure/src/Experience/World/World.ts:33 | the fox's update count grows by one |
| BloomBasic.IndexOf | src/threejs-bloom-basic/index.ts:222 | `indexOf`: -1 iff absent, otherwise the first position holding the value |
| BloomBasic.RemoveFirstSpec | src/threejs-bloom-basic/index.ts:221-227 | removal takes out exactly one copy (a multiset difference) at the first occurrence, keeps the others in order, and changes nothing when absent |
| BloomBasic.AddThenRemove | src/threejs-bloom-basic/index.ts:217-227 | adding a new subscriber and removing it gives the old list back |
| BloomBasic.AddThenRemoveEarlier | src/threejs-bloom-basic/index.ts:217-227 | adding a subscriber already present and removing it removes the earlier copy |
| BloomBasic.FrameLoop.constructor | src/threejs-bloom-basic/index.ts:192-230 | `intersectMeshes` is the only subscriber, and `prevTime` is 0 |
| BloomBasic.FrameLoop.AddFrameLoop | src/threejs-bloom-basic/index.ts:217-219 | `fn` is appended at the end |
| BloomBasic.FrameLoop.RemoveFrameLoop | src/threejs-bloom-basic/index.ts:221-227 | the list becomes the list without its first `fn` |
| BloomBasic.FrameLoop.Render | src/threejs-bloom-basic/index.ts:237-250 | `deltaTime = elapsed - prevTime`, then `prevTime = elapsed` (so the deltas sum to it); every subscriber is called once, in order, with that delta |
| BloomBasic.Hover.IntersectMeshes | src/threejs-bloom-basic/index.ts:194-213 | a first mesh hit becomes `INTERSECTED` and the sole selection; a first non-mesh hit keeps both; no hit clears `INTERSECTED` and keeps the selection; a set `INTERSECTED` is always the sole selection |
| Bloom.StashFront | src/threejs-bloom/index.ts:175-187 | with distinct uuids, the stash holds an object's material exactly when it was darkened, and removing its key leaves the stash of the rest |
| Bloom.StashKeys | src/threejs-bloom/index.ts:176-177 | only darkened objects have a stash entry |
| Bloom.BloomScene.DarkenNonBloomed | src/threejs-bloom/index.ts:175-180 | a mesh outside the bloom layer has its material stashed under its uuid and is swapped to `darkMaterial`; anything else is untouched |
| Bloom.BloomScene.RestoreMaterial | src/threejs-bloom/index.ts:182-187 | a stashed material is put back and its entry deleted; without an entry nothing changes |
| Bloom.BloomScene.DarkenAll | src/threejs-bloom/index.ts:191 | after the traversal, every non-bloom mesh shows `darkMaterial`, others keep theirs, and the stash holds the old materials |
| Bloom.BloomScene.RestoreAll | src/threejs-bloom/index.ts:193 | the restore traversal puts every material back and empties the stash |
| Bloom.BloomScene.Render | src/threejs-bloom/index.ts:189-195 | the bloom pass sees `darkMaterial` on non-bloom meshes and their own materials elsewhere; the final pass and the scene afterwards have every material back, the stash is empty and the layers are unchanged |
| Bloom.BloomScene.OnPointerDown | src/threejs-bloom/index.ts:224-236 | the first hit's bloom-layer membership flips and its material is kept; with no hit nothing changes |

The cases `Emitter.EventEmitter.Trigger` covers (EventEmitter.ts:94-147):
- An undefined or empty name returns `false` and invokes nothing.
- Only the first token counts.
- A base event invokes the callbacks namespace by namespace, in key order and registration order, with the array arguments or none.
- A missing namespace invokes nothing and returns `null`.
- A namespace-only name returns the emitter.
- A registered namespace without the event throws a `TypeError`.
- Otherwise that namespace's list is invoked.
- Whenever it returns a value, the value is `null`.

## Left out

- Callbacks return normally. An exception thrown by `callback.apply` (EventEmitter.ts:122, :140) ends `trigger` part-way through the fan-out; `Emitter.EventEmitter.Trigger` always gives the whole trace, and `respond` cannot throw.
- Frame subscribers in the bloom-basic demo return normally and do not call `addFrameLoop` or `removeFrameLoop` during a frame. The `for…of` over the live `subscribe` array (src/threejs-bloom-basic/index.ts:248-250) would otherwise stop part-way, skip or visit added entries; `BloomBasic.FrameLoop.Render` calls each subscriber of the list as it was at the start of the frame.
- Re-entrancy: callbacks are opaque ids that do not call `on`, `off` or `trigger` while an emitter is triggering. The `this` a callback receives is not modelled.
- JavaScript key quirks, because the model assumes plain insertion order:
  - integer-like namespace or event names enumerate first in `for…in`;
  - inherited keys such as `constructor` pass the `instanceof` tests.
- Warnings: `console.warn` and `console.log` output are not modelled.
- Loaders: the GLTF, RGBE and texture loaders are not modelled. A dispatched load is a `Request`, and its completion is a call of `SourceLoaded`. The network, failures and progress are not modelled. `sources.json` is the constructor's parameter. The types of `ResourcesItems` are not modelled.
- `Loading.NeverReadyWithUnknownType`: assumes that each dispatched load completes at most once. With duplicate completions the count can reach `toLoad` without every source having loaded.
- Subsystem internals: the constructors of Environment, Floor and Fox, and the animation mixer behind `fox.update`, are not part of this model. Camera.ts, Renderer.ts, Environment.ts, Floor.ts and Fox.ts are not part of this model.
- Experience.ts as an application root is not part of this model.
- World: the `ready` listener of World is the callback id `listener`. A `ready` trace that contains it corresponds to a call of `Composer.World.OnReady`. That dispatch from id to method is left to the caller.
- `requestAnimationFrame`:
  - the next `tick` in Time.ts;
  - the next `render` in both demos;
  - `Date.now()` and `clock.getElapsedTime()`.

  These are parameters of `Tick` and `Render`.
- Window events: the `resize` and pointer listeners are methods that the window calls.
- Floating point: no NaN, infinity or rounding. `devicePixelRatio` and elapsed seconds are `real`. Pointer coordinate maths, raycasting and Three.js `Layers` bitmasks are not modelled. A raycast is its list of hits, and bloom-layer membership is one boolean per object.
- Rendering: `composer.render`, the bloom and final composers, `controls.update`, `stats.update` and the outline pass other than its `selectedObjects` are not modelled. The bloom render's result is the material each object is drawn with in each pass.
- `Bloom.BloomScene.Render`: needs distinct uuids and an empty stash between frames, as three.js generates uuids. The scene root, which `traverse` also visits, is not among `objects`. It is not a mesh, and it has no stash entry.
- The other demo scripts and `vite.config.js` are not part of this model.
