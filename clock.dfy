/**
 * `Time` (Time.ts): integer millisecond clock state. `Date.now()` is the
 * parameter `now`; the frame callback that calls `tick` is left to the
 * caller.
 */
module Clock {
  import opened Js
  import opened Names
  import opened Registry
  import opened Emitter

  /** The value `delta` holds before the first tick: a placeholder frame length, not a measurement. */
  const FirstDelta: int := 16

  /** The time from each reading to the next. */
  function Deltas(readings: seq<int>): (d: seq<int>)
    ensures |d| == if readings == [] then 0 else |readings| - 1
  {
    if |readings| < 2 then []
    else Deltas(readings[..|readings| - 1]) + [readings[|readings| - 1] - readings[|readings| - 2]]
  }

  function Sum(s: seq<int>): int {
    if s == [] then 0 else Sum(s[..|s| - 1]) + s[|s| - 1]
  }

  predicate NonDecreasing(readings: seq<int>) {
    forall i, j :: 0 <= i <= j < |readings| ==> readings[i] <= readings[j]
  }

  /** The deltas telescope: together they span from the first reading to the last. */
  lemma {:induction false} DeltasTelescope(readings: seq<int>)
    requires |readings| >= 1
    ensures Sum(Deltas(readings)) == readings[|readings| - 1] - readings[0]
  {
    if |readings| >= 2 {
      var p := readings[..|readings| - 1];
      DeltasTelescope(p);
      assert Deltas(readings)[..|readings| - 2] == Deltas(p);
    }
  }

  /** With readings that never go back, no delta is negative. */
  lemma {:induction false} DeltasNonNegative(readings: seq<int>)
    requires NonDecreasing(readings)
    ensures forall i :: 0 <= i < |Deltas(readings)| ==> Deltas(readings)[i] >= 0
  {
    if |readings| >= 2 {
      var p := readings[..|readings| - 1];
      assert NonDecreasing(p);
      DeltasNonNegative(p);
      var d := Deltas(readings);
      forall i | 0 <= i < |d| ensures d[i] >= 0 {
        if i < |d| - 1 {
          assert d[i] == Deltas(p)[i];
        }
      }
    }
  }

  class Time {
    const events: EventEmitter
    var start: int
    var current: int
    var elapsed: int
    var delta: int
    /** The `now` of the constructor, then that of every tick. */
    ghost var readings: seq<int>

    ghost predicate Valid()
      reads this, events
    {
      && events.Valid()
      && |readings| >= 1
      && readings[0] == start
      && readings[|readings| - 1] == current
      && elapsed == current - start
      && delta == (if |readings| == 1 then FirstDelta else readings[|readings| - 1] - readings[|readings| - 2])
    }

    /** `start = current = now`, `elapsed = 0` and the placeholder `delta`. */
    constructor (now: int)
      ensures Valid() && fresh(events) && events.callbacks == Empty
      ensures start == now && current == now && elapsed == 0 && delta == FirstDelta
      ensures readings == [now]
    {
      events := new EventEmitter();
      start := now;
      current := start;
      elapsed := 0;
      delta := FirstDelta;
      readings := [now];
    }

    /**
     * `tick` at time `now`: `delta` from the previous `current`, then
     * `current`, then `elapsed`; only then is `tick` triggered, with no
     * arguments. `start` never changes, and `elapsed` is the sum of all
     * ticks' deltas.
     */
    method Tick(now: int) returns (trace: seq<Invocation>)
      requires Valid()
      modifies this
      ensures Valid()
      ensures start == old(start) && delta == now - old(current) && current == now && elapsed == now - start
      ensures readings == old(readings) + [now]
      ensures elapsed == Sum(Deltas(readings))
      ensures now >= old(current) ==> delta >= 0 && elapsed >= old(elapsed)
      ensures trace == Calls(Fanout(events.callbacks, "tick"), [])
    {
      delta := now - current;
      current := now;
      elapsed := current - start;
      ghost var previous := readings;
      readings := readings + [now];
      assert readings[0] == start && readings[|readings| - 2] == previous[|previous| - 1];
      DeltasTelescope(readings);
      FrameworkEvents();
      trace := events.Emit("tick");
    }
  }
}
