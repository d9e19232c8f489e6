/**
 * The loaded FBX asset as the layer panel sees it: a tree of three.js objects, each with a
 * name, a mesh flag, a settable `material` and a settable `visible` flag. Objects are
 * handles `0 .. Count() - 1`; handle 0 is the asset's root object.
 */
module SceneGraph {
  /** A material, as an opaque token; `HighlightMaterial` is the hover material. */
  datatype Material = HighlightMaterial | Painted(id: nat)

  class Asset {
    const names: seq<string>
    const isMesh: seq<bool>
    /** The children of each object, in `children` order. */
    const kids: seq<seq<nat>>
    const material: array<Material>
    const visible: array<bool>

    function Count(): nat {
      |names|
    }

    /**
     * Every object has its flags, its children and its two settable fields; a child's
     * handle is greater than its parent's, so no object is its own ancestor.
     */
    predicate Valid() {
      && 0 < |names|
      && |isMesh| == |names| && |kids| == |names|
      && material.Length == |names| && visible.Length == |names|
      && forall h, i :: 0 <= h < |kids| && 0 <= i < |kids[h]| ==> h < kids[h][i] < |names|
    }

    constructor (names: seq<string>, isMesh: seq<bool>, kids: seq<seq<nat>>, mats: seq<Material>, vis: seq<bool>)
      requires 0 < |names| && |isMesh| == |names| && |kids| == |names| && |mats| == |names| && |vis| == |names|
      requires forall h, i :: 0 <= h < |kids| && 0 <= i < |kids[h]| ==> h < kids[h][i] < |names|
      ensures Valid()
      ensures this.names == names && this.isMesh == isMesh && this.kids == kids
      ensures material[..] == mats && visible[..] == vis
      ensures fresh(material) && fresh(visible)
    {
      this.names, this.isMesh, this.kids := names, isMesh, kids;
      material := new Material[|mats|](i requires 0 <= i < |mats| => mats[i]);
      visible := new bool[|vis|](i requires 0 <= i < |vis| => vis[i]);
    }

    /** Object `x` is `h` itself or lies in the subtree of one of `h`'s children. */
    predicate Descends(h: nat, x: nat)
      requires Valid() && h < Count()
      decreases Count() - h
    {
      h == x || exists i :: 0 <= i < |kids[h]| && Descends(kids[h][i], x)
    }

    /** `Object3D.traverse`: the object itself, then each child's traversal in order. */
    function PreOrder(h: nat): (order: seq<nat>)
      requires Valid() && h < Count()
      ensures |order| > 0 && order[0] == h
      ensures forall i :: 0 <= i < |order| ==> h <= order[i] < Count()
      decreases Count() - h, 1
    {
      [h] + PreOrderOf(h, kids[h])
    }

    /** The traversals of the sibling objects `hs`, all children of `parent`, one after the other. */
    function PreOrderOf(parent: nat, hs: seq<nat>): (order: seq<nat>)
      requires Valid() && parent < Count()
      requires forall i :: 0 <= i < |hs| ==> parent < hs[i] < Count()
      ensures forall i :: 0 <= i < |order| ==> parent < order[i] < Count()
      decreases Count() - parent, 0, |hs|
    {
      if hs == [] then [] else PreOrder(hs[0]) + PreOrderOf(parent, hs[1..])
    }

    /** The traversal from `h` visits only `h` and the objects below it. */
    lemma {:induction false} PreOrderInSubtree(h: nat)
      requires Valid() && h < Count()
      ensures forall i :: 0 <= i < |PreOrder(h)| ==> Descends(h, PreOrder(h)[i])
      decreases Count() - h, 1
    {
      var rest := PreOrderOf(h, kids[h]);
      PreOrderOfInSubtrees(h, kids[h]);
      forall i | 0 <= i < |PreOrder(h)|
        ensures Descends(h, PreOrder(h)[i])
      {
        if i > 0 {
          assert PreOrder(h)[i] == rest[i - 1];
          assert exists j :: 0 <= j < |kids[h]| && Descends(kids[h][j], rest[i - 1]);
          var j :| 0 <= j < |kids[h]| && Descends(kids[h][j], rest[i - 1]);
        }
      }
    }

    /** The traversals of siblings `hs` visit only objects below one of them. */
    lemma {:induction false} PreOrderOfInSubtrees(parent: nat, hs: seq<nat>)
      requires Valid() && parent < Count()
      requires forall i :: 0 <= i < |hs| ==> parent < hs[i] < Count()
      ensures forall i :: 0 <= i < |PreOrderOf(parent, hs)| ==>
        exists j :: 0 <= j < |hs| && Descends(hs[j], PreOrderOf(parent, hs)[i])
      decreases Count() - parent, 0, |hs|
    {
      if hs != [] {
        var first := PreOrder(hs[0]);
        var rest := PreOrderOf(parent, hs[1..]);
        PreOrderInSubtree(hs[0]);
        PreOrderOfInSubtrees(parent, hs[1..]);
        assert PreOrderOf(parent, hs) == first + rest;
        var order := PreOrderOf(parent, hs);
        forall i | 0 <= i < |order|
          ensures exists j :: 0 <= j < |hs| && Descends(hs[j], order[i])
        {
          if i < |first| {
            assert order[i] == first[i];
            assert Descends(hs[0], first[i]);
          } else {
            var k := i - |first|;
            assert order[i] == rest[k];
            assert exists j :: 0 <= j < |hs[1..]| && Descends(hs[1..][j], rest[k]);
            var j :| 0 <= j < |hs[1..]| && Descends(hs[1..][j], rest[k]);
            assert hs[1..][j] == hs[j + 1];
          }
        }
      } else {
        assert PreOrderOf(parent, hs) == [];
      }
    }

    /** Conversely, the traversal from `h` visits every object below `h`. */
    lemma {:induction false} SubtreeVisited(h: nat, x: nat)
      requires Valid() && h < Count() && Descends(h, x)
      ensures x in PreOrder(h)
      decreases Count() - h
    {
      if h != x {
        var i :| 0 <= i < |kids[h]| && Descends(kids[h][i], x);
        SubtreeVisited(kids[h][i], x);
        VisitedInSiblings(h, kids[h], i, x);
      }
    }

    /** An object visited by the traversal of sibling `hs[i]` is visited by the siblings' traversal. */
    lemma {:induction false} VisitedInSiblings(parent: nat, hs: seq<nat>, i: nat, x: nat)
      requires Valid() && parent < Count()
      requires forall k :: 0 <= k < |hs| ==> parent < hs[k] < Count()
      requires i < |hs| && x in PreOrder(hs[i])
      ensures x in PreOrderOf(parent, hs)
      decreases |hs|
    {
      assert PreOrderOf(parent, hs) == PreOrder(hs[0]) + PreOrderOf(parent, hs[1..]);
      if i > 0 {
        assert hs[1..][i - 1] == hs[i];
        VisitedInSiblings(parent, hs[1..], i - 1, x);
      }
    }
  }

  /** Every entry of `order` is a handle of `a`. */
  predicate Handles(a: Asset, order: seq<nat>) {
    forall i :: 0 <= i < |order| ==> order[i] < a.Count()
  }
}
