/**
 * The name-keyed scene index of src/App.tsx: `fbxObjects` (name to object) and
 * `originalMaterials` (mesh name to the material to restore), filled by the traversal in
 * `Scene` and used by the layer rows' visibility toggle and hover handlers.
 */
module SceneIndex {
  import opened Wrappers
  import opened SceneGraph

  /** The build traversal records this object: it is named, and a mesh when only meshes count. */
  predicate Recorded(a: Asset, h: nat, meshesOnly: bool)
    requires a.Valid() && h < a.Count()
  {
    a.names[h] != "" && (meshesOnly ==> a.isMesh[h])
  }

  /**
   * The dictionary that writes `dict[object.name] = object` for each recorded object of
   * `order`, in order, leave behind: a later object overwrites an earlier one of the same name.
   */
  function LastNamed(a: Asset, order: seq<nat>, meshesOnly: bool): (m: map<string, nat>)
    requires a.Valid() && Handles(a, order)
    ensures forall n :: n in m ==> m[n] < a.Count() && a.names[m[n]] == n && Recorded(a, m[n], meshesOnly)
  {
    if order == [] then map[]
    else
      var m := LastNamed(a, order[..|order| - 1], meshesOnly);
      var h := order[|order| - 1];
      if Recorded(a, h, meshesOnly) then m[a.names[h] := h] else m
  }

  /** The materials, taken from `mats`, of the objects a name-to-object dictionary holds. */
  function MaterialsOf(mats: seq<Material>, m: map<string, nat>): map<string, Material>
    requires forall n :: n in m ==> m[n] < |mats|
  {
    map n | n in m :: mats[m[n]]
  }

  /** Recording one more object records its material too. */
  lemma MaterialsOfStore(mats: seq<Material>, m: map<string, nat>, n: string, h: nat)
    requires forall k :: k in m ==> m[k] < |mats|
    requires h < |mats|
    ensures MaterialsOf(mats, m[n := h]) == MaterialsOf(mats, m)[n := mats[h]]
  {
  }

  /**
   * Build is last-write-wins: a name has an entry exactly when some recorded object of the
   * traversal carries it, and the entry is the last such object visited.
   */
  lemma {:induction false} LastNamedIsLast(a: Asset, order: seq<nat>, meshesOnly: bool, n: string)
    requires a.Valid() && Handles(a, order)
    ensures n in LastNamed(a, order, meshesOnly) <==>
      exists i :: 0 <= i < |order| && Recorded(a, order[i], meshesOnly) && a.names[order[i]] == n
    ensures n in LastNamed(a, order, meshesOnly) ==>
      exists i :: 0 <= i < |order| && order[i] == LastNamed(a, order, meshesOnly)[n] &&
        forall j :: i < j < |order| ==> !(Recorded(a, order[j], meshesOnly) && a.names[order[j]] == n)
  {
    if order != [] {
      var init := order[..|order| - 1];
      var h := order[|order| - 1];
      LastNamedIsLast(a, init, meshesOnly, n);
      var m := LastNamed(a, order, meshesOnly);
      if Recorded(a, h, meshesOnly) && a.names[h] == n {
        assert order[|order| - 1] == m[n];
      } else {
        if n in m {
          var i :| 0 <= i < |init| && init[i] == m[n] &&
            forall j :: i < j < |init| ==> !(Recorded(a, init[j], meshesOnly) && a.names[init[j]] == n);
          assert order[i] == m[n];
        }
        if exists i :: 0 <= i < |order| && Recorded(a, order[i], meshesOnly) && a.names[order[i]] == n {
          var i :| 0 <= i < |order| && Recorded(a, order[i], meshesOnly) && a.names[order[i]] == n;
          assert init[i] == order[i];
        }
      }
    }
  }

  /**
   * The stored originals after a hover traversal over `order` starting from `stored`, with
   * `mats` the materials before the traversal: a mesh's material is stored under its name
   * only when that name has no entry yet.
   */
  function Capture(a: Asset, mats: seq<Material>, order: seq<nat>, stored: map<string, Material>): (s: map<string, Material>)
    requires a.Valid() && Handles(a, order) && |mats| == a.Count()
    ensures forall n :: n in stored ==> n in s && s[n] == stored[n]
    ensures forall n :: n in s ==> n in stored || exists i :: 0 <= i < |order| && a.isMesh[order[i]] && a.names[order[i]] == n
    ensures forall i :: 0 <= i < |order| && a.isMesh[order[i]] ==> a.names[order[i]] in s
  {
    if order == [] then stored
    else
      var s := Capture(a, mats, order[..|order| - 1], stored);
      var h := order[|order| - 1];
      if a.isMesh[h] && a.names[h] !in s then s[a.names[h] := mats[h]] else s
  }

  /** One more step of a hover traversal: the next mesh's material is stored if its name has no entry. */
  lemma CaptureStep(a: Asset, mats: seq<Material>, order: seq<nat>, i: nat, stored: map<string, Material>)
    requires a.Valid() && Handles(a, order) && |mats| == a.Count() && i < |order|
    ensures var s := Capture(a, mats, order[..i], stored);
      Capture(a, mats, order[..i + 1], stored) ==
        if a.isMesh[order[i]] && a.names[order[i]] !in s then s[a.names[order[i]] := mats[order[i]]] else s
  {
    assert order[..i + 1][..i] == order[..i];
  }

  /** The materials after a hover traversal over `order`: every mesh visited shows the highlight. */
  function Highlighted(a: Asset, mats: seq<Material>, order: seq<nat>): seq<Material>
    requires a.Valid() && |mats| == a.Count()
  {
    seq(|mats|, h requires 0 <= h < |mats| => if a.isMesh[h] && h in order then HighlightMaterial else mats[h])
  }

  /** The materials after a leave traversal over `order`: every mesh visited whose name has an entry takes it. */
  function Restored(a: Asset, mats: seq<Material>, order: seq<nat>, stored: map<string, Material>): seq<Material>
    requires a.Valid() && |mats| == a.Count()
  {
    seq(|mats|, h requires 0 <= h < |mats| =>
      if a.isMesh[h] && h in order && a.names[h] in stored then stored[a.names[h]] else mats[h])
  }

  /** One more step of a hover traversal: the next object shows the highlight if it is a mesh. */
  lemma HighlightedStep(a: Asset, mats: seq<Material>, order: seq<nat>, i: nat)
    requires a.Valid() && Handles(a, order) && |mats| == a.Count() && i < |order|
    ensures var m := Highlighted(a, mats, order[..i]);
      Highlighted(a, mats, order[..i + 1]) == if a.isMesh[order[i]] then m[order[i] := HighlightMaterial] else m
  {
    assert order[..i + 1] == order[..i] + [order[i]];
  }

  /**
   * First capture wins: a name with no entry before the traversal ends up with the
   * material the first mesh of that name visited had before the traversal.
   */
  lemma {:induction false} CaptureIsFirst(a: Asset, mats: seq<Material>, order: seq<nat>, stored: map<string, Material>, n: string)
    requires a.Valid() && Handles(a, order) && |mats| == a.Count()
    requires n !in stored && n in Capture(a, mats, order, stored)
    ensures exists i :: (0 <= i < |order| && a.isMesh[order[i]] && a.names[order[i]] == n &&
      Capture(a, mats, order, stored)[n] == mats[order[i]] &&
      forall j :: 0 <= j < i ==> !(a.isMesh[order[j]] && a.names[order[j]] == n))
  {
    var init := order[..|order| - 1];
    var last := |order| - 1;
    var before := Capture(a, mats, init, stored);
    if n in before {
      CaptureIsFirst(a, mats, init, stored, n);
      var i :| 0 <= i < |init| && a.isMesh[init[i]] && a.names[init[i]] == n &&
        before[n] == mats[init[i]] &&
        forall j :: 0 <= j < i ==> !(a.isMesh[init[j]] && a.names[init[j]] == n);
      assert order[i] == init[i];
      assert forall j :: 0 <= j < i ==> order[j] == init[j];
    } else {
      forall j | 0 <= j < last
        ensures !(a.isMesh[order[j]] && a.names[order[j]] == n)
      {
        assert order[j] == init[j];
      }
      assert Capture(a, mats, order, stored)[n] == mats[order[last]];
    }
  }

  /** A traversal whose every mesh name already has an entry stores nothing. */
  lemma {:induction false} CaptureCovered(a: Asset, mats: seq<Material>, order: seq<nat>, stored: map<string, Material>)
    requires a.Valid() && Handles(a, order) && |mats| == a.Count()
    requires forall i :: 0 <= i < |order| && a.isMesh[order[i]] ==> a.names[order[i]] in stored
    ensures Capture(a, mats, order, stored) == stored
  {
    if order != [] {
      CaptureCovered(a, mats, order[..|order| - 1], stored);
    }
  }

  /** Hovering twice stores the same originals as hovering once, whatever the materials were in between. */
  lemma CaptureTwice(a: Asset, mats: seq<Material>, mats': seq<Material>, order: seq<nat>, stored: map<string, Material>)
    requires a.Valid() && Handles(a, order) && |mats| == a.Count() && |mats'| == a.Count()
    ensures Capture(a, mats', order, Capture(a, mats, order, stored)) == Capture(a, mats, order, stored)
  {
    CaptureCovered(a, mats', order, Capture(a, mats, order, stored));
  }

  /**
   * Enter, enter again, leave: the meshes end as a single enter and leave leave them, each
   * visited mesh showing the material first stored under its name.
   */
  lemma HighlightTwiceThenRestore(a: Asset, mats: seq<Material>, order: seq<nat>, stored: map<string, Material>)
    requires a.Valid() && Handles(a, order) && |mats| == a.Count()
    ensures var once := Capture(a, mats, order, stored);
      var lit := Highlighted(a, mats, order);
      var twice := Capture(a, lit, order, once);
      && twice == once
      && Highlighted(a, lit, order) == lit
      && Restored(a, Highlighted(a, lit, order), order, twice) == Restored(a, lit, order, once)
      && forall h :: 0 <= h < |mats| && a.isMesh[h] && h in order ==>
           Restored(a, lit, order, once)[h] == once[a.names[h]]
  {
    CaptureTwice(a, mats, Highlighted(a, mats, order), order, stored);
    forall h | 0 <= h < |mats| && a.isMesh[h] && h in order
      ensures a.names[h] in Capture(a, mats, order, stored)
    {
      var i :| 0 <= i < |order| && order[i] == h;
    }
  }

  /** Every mesh of the asset whose name has a stored original shows that original. */
  ghost predicate Agrees(a: Asset, mats: seq<Material>, stored: map<string, Material>)
    requires a.Valid() && |mats| == a.Count()
  {
    forall h :: 0 <= h < a.Count() && a.isMesh[h] && a.names[h] in stored ==> stored[a.names[h]] == mats[h]
  }

  /** No two different meshes of the asset share a name. */
  ghost predicate MeshNamesUnique(a: Asset)
    requires a.Valid()
  {
    forall g, h ::
      0 <= g < a.Count() && 0 <= h < a.Count() && a.isMesh[g] && a.isMesh[h] && a.names[g] == a.names[h]
      ==> g == h
  }

  /**
   * Entering and leaving a row puts every mesh back as it was, provided the stored
   * originals agree with the meshes and no two meshes share a name.
   */
  lemma HoverRoundTrip(a: Asset, mats: seq<Material>, order: seq<nat>, stored: map<string, Material>)
    requires a.Valid() && Handles(a, order) && |mats| == a.Count()
    requires Agrees(a, mats, stored) && MeshNamesUnique(a)
    ensures Restored(a, Highlighted(a, mats, order), order, Capture(a, mats, order, stored)) == mats
  {
    var s := Capture(a, mats, order, stored);
    var r := Restored(a, Highlighted(a, mats, order), order, s);
    forall h | 0 <= h < |mats|
      ensures r[h] == mats[h]
    {
      if a.isMesh[h] && h in order {
        var n := a.names[h];
        if n !in stored {
          CaptureIsFirst(a, mats, order, stored, n);
        }
      }
    }
  }

  /**
   * Originals are kept per mesh name, not per mesh: after entering and leaving, two meshes
   * of the same name whose name had no entry both show the material of the one visited first.
   */
  lemma SameNameShareRestore(a: Asset, mats: seq<Material>, order: seq<nat>, stored: map<string, Material>, g: nat, h: nat)
    requires a.Valid() && Handles(a, order) && |mats| == a.Count()
    requires g in order && h in order && a.isMesh[g] && a.isMesh[h] && a.names[g] == a.names[h]
    requires a.names[g] !in stored
    ensures var r := Restored(a, Highlighted(a, mats, order), order, Capture(a, mats, order, stored));
      exists i :: 0 <= i < |order| && a.isMesh[order[i]] && a.names[order[i]] == a.names[g] &&
        r[g] == mats[order[i]] && r[h] == mats[order[i]] &&
        forall j :: 0 <= j < i ==> !(a.isMesh[order[j]] && a.names[order[j]] == a.names[g])
  {
    var k :| 0 <= k < |order| && order[k] == g;
    CaptureIsFirst(a, mats, order, stored, a.names[g]);
  }

  /** A hover traversal keeps the stored originals in agreement with the meshes it started from. */
  lemma CaptureAgrees(a: Asset, mats: seq<Material>, order: seq<nat>, stored: map<string, Material>)
    requires a.Valid() && Handles(a, order) && |mats| == a.Count()
    requires Agrees(a, mats, stored) && MeshNamesUnique(a)
    ensures Agrees(a, mats, Capture(a, mats, order, stored))
  {
    var s := Capture(a, mats, order, stored);
    forall h | 0 <= h < a.Count() && a.isMesh[h] && a.names[h] in s
      ensures s[a.names[h]] == mats[h]
    {
      if a.names[h] !in stored {
        CaptureIsFirst(a, mats, order, stored, a.names[h]);
      }
    }
  }

  /** After a build, the stored originals agree with the meshes when no two meshes share a name. */
  lemma BuildAgrees(a: Asset, mats: seq<Material>, order: seq<nat>)
    requires a.Valid() && Handles(a, order) && |mats| == a.Count()
    requires MeshNamesUnique(a)
    ensures Agrees(a, mats, MaterialsOf(mats, LastNamed(a, order, true)))
  {
  }

  /**
   * `window.fbxObjects` and `window.originalMaterials`, with the asset whose objects the
   * first refers to. Before the first build there is no asset and both are empty.
   */
  class Index {
    var asset: Asset?
    var objects: map<string, nat>
    var originals: map<string, Material>

    /** Every entry of `objects` is an object of the asset that carries the entry's name. */
    ghost predicate Valid()
      reads this
    {
      if asset == null then objects == map[] && originals == map[]
      else asset.Valid() && forall n :: n in objects ==> objects[n] < asset.Count() && asset.names[objects[n]] == n
    }

    constructor ()
      ensures Valid() && asset == null
    {
      asset, objects, originals := null, map[], map[];
    }

    /** `window.fbxObjects?.[name]`. */
    function Lookup(name: string): (r: Option<nat>)
      requires Valid()
      reads this
      ensures r.Some? <==> name in objects
      ensures r.Some? ==> asset != null && r.value < asset.Count() && asset.names[r.value] == name
    {
      if name in objects then Some(objects[name]) else None
    }

    /**
     * The index part of `Scene`: both dictionaries are reset, then the traversal of the
     * asset records every named object under its name and every named mesh's material.
     */
    method Build(a: Asset)
      requires a.Valid()
      modifies this
      ensures Valid() && asset == a
      ensures objects == LastNamed(a, a.PreOrder(0), false)
      ensures originals == MaterialsOf(a.material[..], LastNamed(a, a.PreOrder(0), true))
    {
      asset := a;
      objects := map[];
      originals := map[];
      var order := a.PreOrder(0);
      for i := 0 to |order|
        invariant asset == a
        invariant objects == LastNamed(a, order[..i], false)
        invariant originals == MaterialsOf(a.material[..], LastNamed(a, order[..i], true))
      {
        var h := order[i];
        assert order[..i + 1][..i] == order[..i];
        ghost var meshes := LastNamed(a, order[..i], true);
        if a.names[h] != "" {
          objects := objects[a.names[h] := h];
          if a.isMesh[h] {
            MaterialsOfStore(a.material[..], meshes, a.names[h], h);
            originals := originals[a.names[h] := a.material[h]];
          }
        }
      }
      assert order[..|order|] == order;
    }

    /** `object.visible = v` on the object indexed under `name`, if there is one. */
    method SetVisible(name: string, v: bool)
      requires Valid()
      modifies if asset == null then {} else {asset.visible}
      ensures name in objects ==> asset.visible[..] == old(asset.visible[..])[objects[name] := v]
      ensures asset != null && name !in objects ==> asset.visible[..] == old(asset.visible[..])
    {
      match Lookup(name)
      case None =>
      case Some(h) =>
        asset.visible[h] := v;
    }

    /**
     * `handleMouseEnter`: over the subtree of the object indexed under `name`, each mesh's
     * material is stored under the mesh's name when that name has no entry, and the mesh
     * then shows the highlight material. An unknown name changes nothing.
     */
    method Highlight(name: string)
      requires Valid()
      modifies this, if asset == null then {} else {asset.material}
      ensures Valid() && asset == old(asset) && objects == old(objects)
      ensures name !in objects ==> originals == old(originals)
      ensures asset != null && name !in objects ==> asset.material[..] == old(asset.material[..])
      ensures name in objects ==>
        var order := asset.PreOrder(objects[name]);
        && originals == Capture(asset, old(asset.material[..]), order, old(originals))
        && asset.material[..] == Highlighted(asset, old(asset.material[..]), order)
    {
      match Lookup(name)
      case None =>
      case Some(root) =>
        var a := asset;
        var order := a.PreOrder(root);
        ghost var mats := a.material[..];
        ghost var stored := originals;
        for i := 0 to |order|
          invariant asset == a && objects == old(objects)
          invariant originals == Capture(a, mats, order[..i], stored)
          invariant a.material[..] == Highlighted(a, mats, order[..i])
        {
          var h := order[i];
          CaptureStep(a, mats, order, i, stored);
          HighlightedStep(a, mats, order, i);
          if a.isMesh[h] {
            if a.names[h] !in originals {
              assert h !in order[..i];
              originals := originals[a.names[h] := a.material[h]];
            }
            a.material[h] := HighlightMaterial;
          }
        }
        assert order[..|order|] == order;
    }

    /**
     * `handleMouseLeave`: over the subtree of the object indexed under `name`, each mesh
     * whose name has a stored original takes it back; the stored originals are kept.
     * An unknown name changes nothing.
     */
    method Unhighlight(name: string)
      requires Valid()
      modifies if asset == null then {} else {asset.material}
      ensures asset != null && name !in objects ==> asset.material[..] == old(asset.material[..])
      ensures name in objects ==>
        asset.material[..] == Restored(asset, old(asset.material[..]), asset.PreOrder(objects[name]), originals)
    {
      match Lookup(name)
      case None =>
      case Some(root) =>
        var a := asset;
        var order := a.PreOrder(root);
        ghost var mats := a.material[..];
        for i := 0 to |order|
          invariant forall h :: 0 <= h < a.material.Length ==>
            a.material[h] == if a.isMesh[h] && h in order[..i] && a.names[h] in originals
              then originals[a.names[h]] else mats[h]
        {
          var h := order[i];
          assert order[..i + 1][..i] == order[..i];
          if a.isMesh[h] && a.names[h] in originals {
            a.material[h] := originals[a.names[h]];
          }
        }
        assert order[..|order|] == order;
    }
  }
}
