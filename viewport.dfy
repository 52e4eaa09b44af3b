/**
 * `Sizes` (Sizes.ts): the viewport's size and pixel ratio. The browser
 * window is the parameter `window`; the `resize` listener is the method
 * `Resize`, called by the window.
 */
module Viewport {
  import opened Js
  import opened Names
  import opened Registry
  import opened Emitter

  /** What `updateSizes` reads from the browser window. */
  datatype Window = Window(innerWidth: int, innerHeight: int, devicePixelRatio: real)

  /** The pixel ratio is capped at 2. */
  const MaxPixelRatio: real := 2.0

  /** `Math.min(devicePixelRatio, 2)`. */
  function PixelRatio(dpr: real): (r: real)
    ensures r <= MaxPixelRatio && r <= dpr
    ensures r == dpr || r == MaxPixelRatio
  {
    if dpr <= MaxPixelRatio then dpr else MaxPixelRatio
  }

  /** The cap keeps every ratio up to 2 as it is. */
  lemma PixelRatioKeepsSmall(dpr: real)
    requires dpr <= MaxPixelRatio
    ensures PixelRatio(dpr) == dpr
  {
  }

  class Sizes {
    const events: EventEmitter
    var width: int
    var height: int
    var pixelRatio: real

    ghost predicate Valid()
      reads this, events
    {
      events.Valid()
    }

    /** The sizes are taken once, before any resize event. */
    constructor (window: Window)
      ensures Valid() && fresh(events) && events.callbacks == Empty
      ensures width == window.innerWidth && height == window.innerHeight
      ensures pixelRatio == PixelRatio(window.devicePixelRatio)
    {
      events := new EventEmitter();
      new;
      UpdateSizes(window);
    }

    /** `updateSizes`: the fields depend on the window alone, so a second call with the same window changes nothing. */
    method UpdateSizes(window: Window)
      modifies this
      ensures width == window.innerWidth && height == window.innerHeight
      ensures pixelRatio == PixelRatio(window.devicePixelRatio)
    {
      width := window.innerWidth;
      height := window.innerHeight;
      pixelRatio := PixelRatio(window.devicePixelRatio);
    }

    /** The `resize` listener: all three fields are updated, then `resize` is triggered with no arguments. */
    method Resize(window: Window) returns (trace: seq<Invocation>)
      requires Valid()
      modifies this
      ensures Valid()
      ensures width == window.innerWidth && height == window.innerHeight
      ensures pixelRatio == PixelRatio(window.devicePixelRatio)
      ensures trace == Calls(Fanout(events.callbacks, "resize"), [])
    {
      UpdateSizes(window);
      FrameworkEvents();
      trace := events.Emit("resize");
    }
  }
}
