/**
 * Effective visibility in the layer panel (`LayerItem` in src/App.tsx): each row receives
 * its parent's effective visibility as `parentVisible` (true at the root), shows
 * `parentVisible && layer.Visible`, and disables its toggle when `parentVisible` is false.
 */
module Visibility {
  import opened Wrappers
  import opened LayerTree

  /** `effectivelyVisible`. */
  function Effective(parentVisible: bool, l: Layer): (r: bool)
    ensures r ==> l.visible
    ensures !parentVisible ==> !r
  {
    parentVisible && l.visible
  }

  /** The `parentVisible` prop received by the row of the layer at `path`. */
  function InheritedAt(l: Layer, path: seq<nat>, parentVisible: bool): (r: Option<bool>)
    ensures r.Some? <==> Subtree(l, path).Some?
    ensures r == Some(true) ==> parentVisible
  {
    if path == [] then Some(parentVisible)
    else match l.children
      case Absent => None
      case Present(cs) =>
        if path[0] < |cs| then InheritedAt(cs[path[0]], path[1..], Effective(parentVisible, l)) else None
  }

  /** The effective visibility shown for the layer at `path` of the panel rooted at `root`. */
  function EffectiveAt(root: Layer, path: seq<nat>): (r: Option<bool>)
    ensures r.Some? <==> Subtree(root, path).Some?
    ensures r == Some(true) ==> Subtree(root, path).value.visible
  {
    match InheritedAt(root, path, true)
    case None => None
    case Some(pv) => Some(Effective(pv, Subtree(root, path).value))
  }

  /** The toggle of the layer at `path` is enabled (`disabled={!parentVisible}`). */
  function ToggleEnabledAt(root: Layer, path: seq<nat>): (r: Option<bool>)
    ensures r.Some? <==> Subtree(root, path).Some?
    ensures path == [] ==> r == Some(true)
  {
    InheritedAt(root, path, true)
  }

  /** Every layer strictly above the end of `path` has its own flag set. */
  ghost predicate AncestorsVisible(l: Layer, path: seq<nat>) {
    forall k :: 0 <= k < |path| ==> Subtree(l, path[..k]).Some? && Subtree(l, path[..k]).value.visible
  }

  /** The layers on a path from a child are the child's own prefixes, shifted by one. */
  lemma PrefixThroughChild(l: Layer, path: seq<nat>, k: nat)
    requires path != [] && l.children.Present? && path[0] < |l.children.list|
    requires k < |path|
    ensures Subtree(l, path[..k + 1]) == Subtree(l.children.list[path[0]], path[1..][..k])
  {
    assert path[..k + 1][0] == path[0];
    assert path[..k + 1][1..] == path[1..][..k];
  }

  /** The inherited flag is the conjunction of the root's `parentVisible` and every ancestor's own flag. */
  lemma {:induction false} InheritedIsAncestorsVisible(l: Layer, path: seq<nat>, parentVisible: bool)
    requires Subtree(l, path).Some?
    ensures InheritedAt(l, path, parentVisible) == Some(parentVisible && AncestorsVisible(l, path))
  {
    if path != [] {
      var c := l.children.list[path[0]];
      InheritedIsAncestorsVisible(c, path[1..], Effective(parentVisible, l));
      assert Subtree(l, path[..0]) == Some(l);
      forall k | 0 <= k < |path[1..]|
        ensures Subtree(l, path[..k + 1]) == Subtree(c, path[1..][..k])
      {
        PrefixThroughChild(l, path, k);
      }
      if AncestorsVisible(l, path) {
        assert l.visible;
        assert AncestorsVisible(c, path[1..]);
      } else if l.visible {
        var k :| 0 <= k < |path| && !(Subtree(l, path[..k]).Some? && Subtree(l, path[..k]).value.visible);
        assert k > 0;
        assert !(Subtree(c, path[1..][..k - 1]).Some? && Subtree(c, path[1..][..k - 1]).value.visible);
      }
    }
  }

  /**
   * A layer is shown as visible exactly when its own flag and the flag of every layer
   * above it are set.
   */
  lemma EffectiveIsAllVisible(root: Layer, path: seq<nat>)
    requires Subtree(root, path).Some?
    ensures EffectiveAt(root, path) == Some(AncestorsVisible(root, path) && Subtree(root, path).value.visible)
  {
    InheritedIsAncestorsVisible(root, path, true);
  }

  /**
   * A hidden ancestor hides every descendant, whatever the descendant's own flag, and
   * disables the descendant's toggle.
   */
  lemma HiddenAncestorHides(root: Layer, path: seq<nat>, k: nat)
    requires Subtree(root, path).Some?
    requires k < |path| && Subtree(root, path[..k]).Some? && !Subtree(root, path[..k]).value.visible
    ensures EffectiveAt(root, path) == Some(false)
    ensures ToggleEnabledAt(root, path) == Some(false)
  {
    InheritedIsAncestorsVisible(root, path, true);
  }

  /** A toggle is disabled exactly when some layer above it has its own flag cleared. */
  lemma ToggleDisabledIff(root: Layer, path: seq<nat>)
    requires Subtree(root, path).Some?
    ensures ToggleEnabledAt(root, path) == Some(false) <==>
      exists k :: 0 <= k < |path| && Subtree(root, path[..k]).Some? && !Subtree(root, path[..k]).value.visible
  {
    InheritedIsAncestorsVisible(root, path, true);
    if !AncestorsVisible(root, path) {
      var k :| 0 <= k < |path| && !(Subtree(root, path[..k]).Some? && Subtree(root, path[..k]).value.visible);
      SubtreeOfPrefix(root, path, k);
    }
  }

  /** Every prefix of a valid path is a valid path. */
  lemma {:induction false} SubtreeOfPrefix(l: Layer, path: seq<nat>, k: nat)
    requires Subtree(l, path).Some? && k <= |path|
    ensures Subtree(l, path[..k]).Some?
  {
    if k > 0 {
      PrefixThroughChild(l, path, k - 1);
      SubtreeOfPrefix(l.children.list[path[0]], path[1..], k - 1);
    }
  }
}
