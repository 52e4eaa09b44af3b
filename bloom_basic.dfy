/**
 * The frame loop and hover outline of the bloom-basic demo
 * (src/threejs-bloom-basic/index.ts). Subscribers are opaque ids compared by
 * identity; the scene's objects are ids, and a raycast is the list of hits
 * it returns, nearest first.
 */
module BloomBasic {
  import opened Js

  /** A frame subscriber, `(delta: number) => void`, compared by identity. */
  type FrameFn = nat

  type ObjectId = nat

  /** The subscriber the script registers first: `intersectMeshes`. */
  const IntersectMeshesFn: FrameFn := 0

  /** One raycast hit: the object and whether it is a `Mesh`. */
  datatype Hit = Hit(target: ObjectId, isMesh: bool)

  /** One subscriber call `fn.call({}, deltaTime)`. */
  datatype FrameCall = FrameCall(fn: FrameFn, delta: real)

  /** `s.indexOf(x)`: the first position of `x`, or -1. */
  function IndexOf(s: seq<FrameFn>, x: FrameFn): (r: int)
    ensures r == -1 <==> x !in s
    ensures r != -1 ==> 0 <= r < |s| && s[r] == x && x !in s[..r]
  {
    if s == [] then -1
    else if s[0] == x then 0
    else
      var k := IndexOf(s[1..], x);
      assert s[1..][..if k == -1 then 0 else k] == s[1..if k == -1 then 1 else k + 1];
      if k == -1 then -1 else k + 1
  }

  /** `removeFrameLoop` on a value: the first occurrence of `x` goes, and nothing else. */
  function RemoveFirst(s: seq<FrameFn>, x: FrameFn): seq<FrameFn> {
    var i := IndexOf(s, x);
    if i == -1 then s else s[..i] + s[i + 1..]
  }

  /**
   * Removing takes out exactly one copy of `x` when there is one, keeps the
   * others in their order, and changes nothing when `x` is absent.
   */
  lemma RemoveFirstSpec(s: seq<FrameFn>, x: FrameFn)
    ensures x !in s ==> RemoveFirst(s, x) == s
    ensures multiset(RemoveFirst(s, x)) == multiset(s) - multiset{x}
    ensures x in s ==> exists i :: 0 <= i < |s| && s == RemoveFirst(s, x)[..i] + [x] + RemoveFirst(s, x)[i..] && x !in s[..i]
  {
    RemoveFirstCount(s, x);
    if x in s {
      var i := RemoveFirstAt(s, x);
    }
  }

  lemma RemoveFirstCount(s: seq<FrameFn>, x: FrameFn)
    ensures multiset(RemoveFirst(s, x)) == multiset(s) - multiset{x}
  {
    var i := IndexOf(s, x);
    if i != -1 {
      SpliceMultiset(s, i);
    } else {
      AbsentMultiset(s, x);
    }
  }

  lemma RemoveFirstAt(s: seq<FrameFn>, x: FrameFn) returns (i: nat)
    requires x in s
    ensures i < |s| && s == RemoveFirst(s, x)[..i] + [x] + RemoveFirst(s, x)[i..] && x !in s[..i]
  {
    i := IndexOf(s, x);
    SpliceAt(s, i);
  }

  lemma SpliceAt(s: seq<FrameFn>, i: nat)
    requires i < |s|
    ensures var r := s[..i] + s[i + 1..]; s == r[..i] + [s[i]] + r[i..]
  {
    var front, back := s[..i], s[i + 1..];
    var r := front + back;
    assert r[..i] == front;
    assert r[i..] == back;
    assert s == front + [s[i]] + back;
  }

  lemma SpliceMultiset(s: seq<FrameFn>, i: nat)
    requires i < |s|
    ensures multiset(s[..i] + s[i + 1..]) == multiset(s) - multiset{s[i]}
  {
    assert s == s[..i] + [s[i]] + s[i + 1..];
    assert multiset(s) == multiset(s[..i]) + multiset{s[i]} + multiset(s[i + 1..]);
  }

  lemma AbsentMultiset(s: seq<FrameFn>, x: FrameFn)
    requires x !in s
    ensures multiset(s) - multiset{x} == multiset(s)
  {
    assert multiset(s)[x] == 0;
  }

  /** Adding a subscriber and removing it again gives the list back when it was not there before. */
  lemma AddThenRemove(s: seq<FrameFn>, x: FrameFn)
    requires x !in s
    ensures RemoveFirst(s + [x], x) == s
  {
    assert (s + [x])[|s|] == x;
    assert (s + [x])[..|s|] == s;
  }

  /** With `x` already subscribed, adding it again and removing it removes the earlier copy. */
  lemma AddThenRemoveEarlier(s: seq<FrameFn>, x: FrameFn)
    requires x in s
    ensures RemoveFirst(s + [x], x) == RemoveFirst(s, x) + [x]
  {
    var i := IndexOf(s, x);
    var t := s + [x];
    assert t[..i] == s[..i];
    assert t[i] == x;
    assert IndexOf(t, x) == i;
    assert t[i + 1..] == s[i + 1..] + [x];
  }

  /** The sum of some frame deltas. */
  function Total(ds: seq<real>): real {
    if ds == [] then 0.0 else Total(ds[..|ds| - 1]) + ds[|ds| - 1]
  }

  class FrameLoop {
    var subscribe: seq<FrameFn>
    var prevTime: real
    /** The `deltaTime` of every frame so far. */
    ghost var deltas: seq<real>

    /** The deltas so far add up to the elapsed time of the last frame. */
    ghost predicate Valid()
      reads this
    {
      Total(deltas) == prevTime
    }

    /** The script's start: `intersectMeshes` is the only subscriber, and `prevTime = 0`. */
    constructor ()
      ensures Valid() && subscribe == [IntersectMeshesFn] && prevTime == 0.0 && deltas == []
    {
      subscribe := [];
      prevTime := 0.0;
      deltas := [];
      new;
      AddFrameLoop(IntersectMeshesFn);
    }

    /** `addFrameLoop(fn)`: `fn` is appended, duplicates included. */
    method AddFrameLoop(fn: FrameFn)
      modifies this`subscribe
      ensures subscribe == old(subscribe) + [fn]
    {
      subscribe := subscribe + [fn];
    }

    /** `removeFrameLoop(fn)`: `splice` at `indexOf(fn)` when that is not -1. */
    method RemoveFrameLoop(fn: FrameFn)
      modifies this`subscribe
      ensures subscribe == RemoveFirst(old(subscribe), fn)
    {
      var index := IndexOf(subscribe, fn);
      if index != -1 {
        subscribe := subscribe[..index] + subscribe[index + 1..];
      }
    }

    /**
     * The frame part of `render` at clock time `elapsed`: `deltaTime` is the
     * time since the previous frame, `prevTime` moves on, and every
     * subscriber is called once, in list order, with that `deltaTime`.
     */
    method Render(elapsed: real) returns (calls: seq<FrameCall>)
      requires Valid()
      modifies this`prevTime, this`deltas
      ensures Valid()
      ensures prevTime == elapsed
      ensures deltas == old(deltas) + [elapsed - old(prevTime)]
      ensures |calls| == |subscribe|
      ensures forall i :: 0 <= i < |calls| ==> calls[i] == FrameCall(subscribe[i], elapsed - old(prevTime))
    {
      var deltaTime := elapsed - prevTime;
      prevTime := elapsed;
      deltas := deltas + [deltaTime];
      assert deltas[..|deltas| - 1] == old(deltas);
      calls := [];
      var i := 0;
      while i < |subscribe|
        invariant 0 <= i <= |subscribe|
        invariant |calls| == i
        invariant forall k :: 0 <= k < i ==> calls[k] == FrameCall(subscribe[k], deltaTime)
      {
        calls := calls + [FrameCall(subscribe[i], deltaTime)];
        i := i + 1;
      }
    }
  }

  /** Whether a hover update leaves `intersected` and `selectedObjects` agreeing. */
  predicate Outlined(intersected: Optional<ObjectId>, selected: seq<ObjectId>) {
    intersected.Defined? ==> selected == [intersected.value]
  }

  class Hover {
    /** `INTERSECTED`. */
    var intersected: Optional<ObjectId>
    /** `outlinePass.selectedObjects`. */
    var selectedObjects: seq<ObjectId>

    ghost predicate Valid()
      reads this
    {
      Outlined(intersected, selectedObjects)
    }

    constructor ()
      ensures Valid() && intersected == Undefined && selectedObjects == []
    {
      intersected := Undefined;
      selectedObjects := [];
    }

    /**
     * `intersectMeshes` with the raycast `hits`. A first hit that is a mesh
     * becomes `INTERSECTED`; a first hit that is not keeps the previous one;
     * no hit clears it. A set `INTERSECTED` is the one outlined object, and
     * with none the outline keeps its previous selection.
     */
    method IntersectMeshes(hits: seq<Hit>)
      requires Valid()
      modifies this
      ensures Valid()
      ensures |hits| > 0 && hits[0].isMesh ==> intersected == Defined(hits[0].target) && selectedObjects == [hits[0].target]
      ensures |hits| > 0 && !hits[0].isMesh ==> intersected == old(intersected) && selectedObjects == old(selectedObjects)
      ensures |hits| == 0 ==> intersected == Undefined && selectedObjects == old(selectedObjects)
    {
      if |hits| > 0 {
        if hits[0].isMesh {
          intersected := Defined(hits[0].target);
        }
      } else {
        if intersected.Defined? {
          intersected := Undefined;
        }
      }
      if intersected.Defined? {
        selectedObjects := [intersected.value];
      }
    }
  }
}
