/**
 * The selective bloom of the bloom demo (src/threejs-bloom/index.ts). Before
 * the bloom pass every mesh outside the bloom layer has its material stashed
 * by uuid and swapped for `darkMaterial`; after it the stash is put back.
 * Layer membership is a boolean per object, materials are opaque ids, and a
 * traversal of the scene visits `objects` in order.
 */
module Bloom {

  /** A material, compared by identity. */
  type Material = nat

  class SceneObject {
    const uuid: string
    const isMesh: bool
    /** `layers.test(obj.layers)` against the bloom layer. */
    var inBloomLayer: bool
    var material: Material

    constructor (uuid: string, isMesh: bool, inBloomLayer: bool, material: Material)
      ensures this.uuid == uuid && this.isMesh == isMesh
      ensures this.inBloomLayer == inBloomLayer && this.material == material
    {
      this.uuid := uuid;
      this.isMesh := isMesh;
      this.inBloomLayer := inBloomLayer;
      this.material := material;
    }
  }

  /** Whether `darkenNoneBloomed` darkens an object: a mesh outside the bloom layer. */
  predicate Darkened(o: SceneObject)
    reads o
  {
    o.isMesh && !o.inBloomLayer
  }

  /** The materials of some objects, in order: what a render pass draws them with. */
  function Looks(objects: seq<SceneObject>): (r: seq<Material>)
    reads set o | o in objects
    ensures |r| == |objects|
    ensures forall i :: 0 <= i < |objects| ==> r[i] == objects[i].material
  {
    if objects == [] then [] else [objects[0].material] + Looks(objects[1..])
  }

  /** The uuids of distinct objects are distinct, as three.js generates them. */
  predicate DistinctIds(objects: seq<SceneObject>) {
    forall i, j :: 0 <= i < j < |objects| ==> objects[i].uuid != objects[j].uuid
  }

  /** What a darkening traversal needs to know of one object, at its start. */
  datatype Entry = Entry(uuid: string, dark: bool, material: Material)

  function Entries(objects: seq<SceneObject>): (r: seq<Entry>)
    reads set o | o in objects
    ensures |r| == |objects|
    ensures forall i :: 0 <= i < |objects| ==> r[i] == Entry(objects[i].uuid, Darkened(objects[i]), objects[i].material)
  {
    if objects == [] then [] else [Entry(objects[0].uuid, Darkened(objects[0]), objects[0].material)] + Entries(objects[1..])
  }

  predicate DistinctEntries(es: seq<Entry>) {
    forall i, j :: 0 <= i < j < |es| ==> es[i].uuid != es[j].uuid
  }

  /** The stash after darkening the objects `es`, in order: later entries overwrite earlier ones. */
  function Stash(es: seq<Entry>): map<string, Material> {
    if es == [] then map[]
    else
      var m := Stash(es[..|es| - 1]);
      var e := es[|es| - 1];
      if e.dark then m[e.uuid := e.material] else m
  }

  /**
   * With distinct uuids the stash holds the first object's material exactly
   * when it was darkened, and without that object's key it is the stash of
   * the rest: restoring in the same order empties it entry by entry.
   */
  lemma {:induction false} StashFront(es: seq<Entry>)
    requires |es| > 0 && DistinctEntries(es)
    ensures es[0].dark ==> es[0].uuid in Stash(es) && Stash(es)[es[0].uuid] == es[0].material
    ensures !es[0].dark ==> es[0].uuid !in Stash(es)
    ensures Stash(es) - {es[0].uuid} == Stash(es[1..])
  {
    if |es| > 1 {
      var p := es[..|es| - 1];
      var e := es[|es| - 1];
      assert p[0] == es[0];
      assert DistinctEntries(p);
      StashFront(p);
      assert es[1..][..|es[1..]| - 1] == p[1..];
      assert e.uuid != es[0].uuid;
    } else {
      assert es[..0] == [];
      assert es[1..] == [];
    }
  }

  /** The stash holds keys of darkened entries only. */
  lemma {:induction false} StashKeys(es: seq<Entry>)
    ensures forall u :: u in Stash(es) ==> exists i :: 0 <= i < |es| && es[i].uuid == u && es[i].dark
  {
    if es != [] {
      var p := es[..|es| - 1];
      StashKeys(p);
      forall u | u in Stash(es) ensures exists i :: 0 <= i < |es| && es[i].uuid == u && es[i].dark {
        if u in Stash(p) {
          var i :| 0 <= i < |p| && p[i].uuid == u && p[i].dark;
          assert es[i] == p[i];
        }
      }
    }
  }

  /** Objects with distinct uuids are distinct objects. */
  lemma DistinctObjects(objects: seq<SceneObject>, k: nat)
    requires DistinctIds(objects) && k < |objects|
    ensures forall i :: 0 <= i < |objects| && i != k ==> objects[i] != objects[k]
  {
    forall i | 0 <= i < |objects| && i != k
      ensures objects[i] != objects[k]
    {
      if i < k {
        assert objects[i].uuid != objects[k].uuid;
      } else {
        assert objects[k].uuid != objects[i].uuid;
      }
    }
  }

  /** Darkening one more object adds its entry to the stash when it is darkened. */
  lemma StashSnoc(es: seq<Entry>, k: nat)
    requires k < |es|
    ensures Stash(es[..k + 1]) == if es[k].dark then Stash(es[..k])[es[k].uuid := es[k].material] else Stash(es[..k])
  {
    assert es[..k + 1][..k] == es[..k];
  }

  class BloomScene {
    const darkMaterial: Material
    /** The scene as `scene.traverse` visits it. */
    const objects: seq<SceneObject>
    /** The stash `materials`, keyed by uuid. */
    var materials: map<string, Material>

    /** Between frames the stash is empty. */
    ghost predicate Valid()
      reads this
    {
      DistinctIds(objects) && materials == map[]
    }

    constructor (darkMaterial: Material, objects: seq<SceneObject>)
      requires DistinctIds(objects)
      ensures Valid() && this.darkMaterial == darkMaterial && this.objects == objects
    {
      this.darkMaterial := darkMaterial;
      this.objects := objects;
      materials := map[];
    }

    /** `darkenNoneBloomed(obj)`: stash and darken a mesh outside the bloom layer, leave anything else alone. */
    method DarkenNonBloomed(obj: SceneObject)
      modifies this`materials, obj`material
      ensures Darkened(obj) ==> materials == old(materials)[obj.uuid := old(obj.material)] && obj.material == darkMaterial
      ensures !Darkened(obj) ==> materials == old(materials) && obj.material == old(obj.material)
    {
      if obj.isMesh && !obj.inBloomLayer {
        materials := materials[obj.uuid := obj.material];
        obj.material := darkMaterial;
      }
    }

    /** `restoreMaterial(obj)`: put a stashed material back and drop it from the stash; no entry, no change. */
    method RestoreMaterial(obj: SceneObject)
      modifies this`materials, obj`material
      ensures materials == old(materials) - {obj.uuid}
      ensures obj.material == if obj.uuid in old(materials) then old(materials)[obj.uuid] else old(obj.material)
    {
      if obj.uuid in materials {
        obj.material := materials[obj.uuid];
        materials := materials - {obj.uuid};
      }
    }

    /**
     * `render`: darken, draw the bloom pass, restore, draw the final pass.
     * The bloom pass sees `darkMaterial` on every mesh outside the bloom
     * layer and every other object's own material; the final pass and the
     * scene afterwards have every material back, and the stash is empty.
     */
    method Render() returns (bloomFrame: seq<Material>, finalFrame: seq<Material>)
      requires Valid()
      modifies this, objects
      ensures Valid()
      ensures |bloomFrame| == |objects|
      ensures forall i :: 0 <= i < |objects| ==> bloomFrame[i] == if Darkened(objects[i]) then darkMaterial else old(objects[i].material)
      ensures finalFrame == old(Looks(objects))
      ensures Looks(objects) == old(Looks(objects))
      ensures forall i :: 0 <= i < |objects| ==> objects[i].inBloomLayer == old(objects[i].inBloomLayer)
    {
      ghost var es := Entries(objects);
      DarkenAll();
      bloomFrame := Looks(objects);
      RestoreAll(es);
      finalFrame := Looks(objects);
    }

    /** `scene.traverse(darkenNoneBloomed)`: the stash is that of the objects as they were. */
    method DarkenAll()
      requires Valid()
      modifies this, objects
      ensures materials == Stash(old(Entries(objects)))
      ensures forall i :: 0 <= i < |objects| ==> objects[i].inBloomLayer == old(objects[i].inBloomLayer)
      ensures forall i :: 0 <= i < |objects| ==> objects[i].material == if Darkened(objects[i]) then darkMaterial else old(objects[i].material)
    {
      ghost var es := Entries(objects);
      var k := 0;
      while k < |objects|
        invariant 0 <= k <= |objects|
        invariant materials == Stash(es[..k])
        invariant forall i :: 0 <= i < |objects| ==> objects[i].inBloomLayer == old(objects[i].inBloomLayer)
        invariant forall i :: 0 <= i < |objects| ==> Darkened(objects[i]) == es[i].dark
        invariant forall i :: 0 <= i < |objects| ==> objects[i].material == if i < k && es[i].dark then darkMaterial else es[i].material
      {
        var obj := objects[k];
        DistinctObjects(objects, k);
        StashSnoc(es, k);
        assert es[k].uuid == obj.uuid && es[k].dark == Darkened(obj) && es[k].material == obj.material;
        DarkenNonBloomed(obj);
        k := k + 1;
      }
      assert es[..k] == es;
    }

    /** `scene.traverse(restoreMaterial)` with the stash `DarkenAll` left from the entries `es`. */
    method RestoreAll(ghost es: seq<Entry>)
      requires DistinctEntries(es) && |es| == |objects|
      requires forall i :: 0 <= i < |objects| ==> objects[i].uuid == es[i].uuid
      requires materials == Stash(es)
      requires forall i :: 0 <= i < |objects| && !es[i].dark ==> objects[i].material == es[i].material
      modifies this, objects
      ensures materials == map[]
      ensures forall i :: 0 <= i < |objects| ==> objects[i].material == es[i].material
      ensures forall i :: 0 <= i < |objects| ==> objects[i].inBloomLayer == old(objects[i].inBloomLayer)
    {
      var k := 0;
      while k < |objects|
        invariant 0 <= k <= |objects|
        invariant materials == Stash(es[k..])
        invariant forall i :: 0 <= i < |objects| ==> objects[i].inBloomLayer == old(objects[i].inBloomLayer)
        invariant forall i :: 0 <= i < |objects| && (i < k || !es[i].dark) ==> objects[i].material == es[i].material
      {
        var obj := objects[k];
        DistinctObjects(objects, k);
        assert es[k..][0] == es[k] && es[k..][1..] == es[k + 1..];
        StashFront(es[k..]);
        assert obj.uuid == es[k].uuid && (obj.uuid in materials <==> es[k].dark);
        RestoreMaterial(obj);
        k := k + 1;
      }
      assert es[k..] == [];
    }

    /** `onPointerDown`: the first hit toggles its bloom-layer membership; with no hit nothing changes. */
    method OnPointerDown(hits: seq<SceneObject>)
      modifies if |hits| > 0 then {hits[0]} else {}
      ensures |hits| > 0 ==> hits[0].inBloomLayer == !old(hits[0].inBloomLayer)
      ensures |hits| > 0 ==> hits[0].material == old(hits[0].material)
    {
      if |hits| > 0 {
        var target := hits[0];
        target.inBloomLayer := !target.inBloomLayer;
      }
    }
  }
}
