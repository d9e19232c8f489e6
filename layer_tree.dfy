/**
 * The layer hierarchy of a Quill project (`QuillLayer` in src/App.tsx) and the
 * recursive update that the layer panel applies to it (`updateLayerRecursive`).
 */
module LayerTree {
  import opened Wrappers

  /** One layer; `children` is its `Implementation.Children`. */
  datatype Layer = Layer(name: string, kind: string, visible: bool, children: Children)

  /**
   * `Absent` when the layer has no `Implementation` or no `Children` array (a leaf);
   * `Present(list)` otherwise, where `list` may be empty.
   */
  datatype Children = Absent | Present(list: seq<Layer>)

  /** `Partial<QuillLayer>` restricted to the fields the panel edits: a field is overridden when present. */
  datatype LayerPatch = LayerPatch(name: Option<string>, kind: Option<string>, visible: Option<bool>)

  /** `QuillProject`: a version number and `Sequence.RootLayer`. */
  datatype Project = Project(version: int, root: Layer)

  /** The patch `{ Visible: v }`. */
  function VisiblePatch(v: bool): LayerPatch {
    LayerPatch(None, None, Some(v))
  }

  /** The patch `{ Name: n }`. */
  function NamePatch(n: string): LayerPatch {
    LayerPatch(Some(n), None, None)
  }

  /** `hasChildren`: the layer has a non-empty `Children` array, so its row has a child row to expand. */
  predicate HasChildren(l: Layer): (r: bool)
    ensures r <==> Subtree(l, [0]).Some?
  {
    l.children.Present? && |l.children.list| > 0
  }

  /** The spread `{...layer, ...updates}`: each field present in the patch replaces the layer's own. */
  function Apply(l: Layer, p: LayerPatch): (r: Layer)
    ensures p.name.Some? ==> r.name == p.name.value
    ensures p.name.None? ==> r.name == l.name
    ensures p.kind.Some? ==> r.kind == p.kind.value
    ensures p.kind.None? ==> r.kind == l.kind
    ensures p.visible.Some? ==> r.visible == p.visible.value
    ensures p.visible.None? ==> r.visible == l.visible
    ensures r.children == l.children
  {
    Layer(p.name.GetOr(l.name), p.kind.GetOr(l.kind), p.visible.GetOr(l.visible), l.children)
  }

  /**
   * `updateLayerRecursive`: a layer named `target` is replaced by its patched copy and its
   * subtree is not searched; any other layer with a `Children` array is rebuilt with every
   * child updated in order; a leaf is returned as it is.
   */
  function Update(l: Layer, target: string, p: LayerPatch): (r: Layer)
    ensures l.name == target ==> r == Apply(l, p)
    ensures l.name != target ==> r.name == l.name && r.kind == l.kind && r.visible == l.visible
    ensures r.children.Present? <==> l.children.Present?
    ensures r.children.Present? ==> |r.children.list| == |l.children.list|
  {
    if l.name == target then Apply(l, p)
    else match l.children
      case Absent => l
      case Present(cs) => l.(children := Present(seq(|cs|, i requires 0 <= i < |cs| => Update(cs[i], target, p))))
  }

  /** Some layer of the tree rooted at `l` is named `n`. */
  predicate Occurs(l: Layer, n: string) {
    l.name == n ||
    match l.children
    case Absent => false
    case Present(cs) => exists i :: 0 <= i < |cs| && Occurs(cs[i], n)
  }

  /** The layer reached from `l` by following child indices, if every index is in range. */
  function Subtree(l: Layer, path: seq<nat>): Option<Layer> {
    if path == [] then Some(l)
    else match l.children
      case Absent => None
      case Present(cs) => if path[0] < |cs| then Subtree(cs[path[0]], path[1..]) else None
  }

  /** Some layer strictly above the end of `path` is named `target`. */
  predicate MatchAbove(l: Layer, path: seq<nat>, target: string) {
    path != [] &&
    (l.name == target ||
     match l.children
     case Absent => false
     case Present(cs) => path[0] < |cs| && MatchAbove(cs[path[0]], path[1..], target))
  }

  /** An update whose target names no layer returns the tree unchanged. */
  lemma {:induction false} UpdateMissIsIdentity(l: Layer, target: string, p: LayerPatch)
    requires !Occurs(l, target)
    ensures Update(l, target, p) == l
  {
    match l.children
    case Absent =>
    case Present(cs) =>
      forall i | 0 <= i < |cs|
        ensures Update(cs[i], target, p) == cs[i]
      {
        UpdateMissIsIdentity(cs[i], target, p);
      }
      assert seq(|cs|, i requires 0 <= i < |cs| => Update(cs[i], target, p)) == cs;
  }

  /**
   * The update seen at every position of the tree: the positions are the same before and
   * after, a layer below a match is left as it was, and every other layer is the update
   * of the original layer there.
   */
  lemma {:induction false} UpdateAt(l: Layer, target: string, p: LayerPatch, path: seq<nat>)
    ensures Subtree(Update(l, target, p), path).Some? <==> Subtree(l, path).Some?
    ensures Subtree(l, path).Some? ==>
      Subtree(Update(l, target, p), path).value ==
        if MatchAbove(l, path, target) then Subtree(l, path).value
        else Update(Subtree(l, path).value, target, p)
  {
    if path != [] && l.children.Present? && path[0] < |l.children.list| {
      var c := l.children.list[path[0]];
      if l.name != target {
        UpdateAt(c, target, p, path[1..]);
      }
    }
  }

  /**
   * The fields of the layer at `path` after an update: a layer named `target` with no
   * match above it takes the patched fields, every other layer keeps its own; the
   * `Children` array stays present or absent and keeps its length.
   */
  lemma {:induction false} UpdateAtFields(l: Layer, target: string, p: LayerPatch, path: seq<nat>)
    requires Subtree(l, path).Some?
    ensures Subtree(Update(l, target, p), path).Some?
    ensures var before := Subtree(l, path).value;
      var after := Subtree(Update(l, target, p), path).value;
      var hit := before.name == target && !MatchAbove(l, path, target);
      && (hit ==> after == Apply(before, p))
      && (!hit ==> after.name == before.name && after.kind == before.kind && after.visible == before.visible)
      && HasChildren(after) == HasChildren(before)
  {
    UpdateAt(l, target, p, path);
  }

  /**
   * Every layer named `n` with no layer of that name above it, the layers an update of
   * `n` reaches, has its own flag equal to `v`.
   */
  predicate TopNamedHave(l: Layer, n: string, v: bool) {
    if l.name == n then l.visible == v
    else match l.children
      case Absent => true
      case Present(cs) => forall i :: 0 <= i < |cs| ==> TopNamedHave(cs[i], n, v)
  }

  /**
   * Toggling twice is undone: when every layer named `n` that the update reaches shows
   * `v`, setting them to `!v` and then back to `v` restores the tree.
   */
  lemma {:induction false} ToggleTwiceRestores(l: Layer, n: string, v: bool)
    requires TopNamedHave(l, n, v)
    ensures Update(Update(l, n, VisiblePatch(!v)), n, VisiblePatch(v)) == l
  {
    if l.name != n {
      match l.children
      case Absent =>
      case Present(cs) =>
        var once := Update(l, n, VisiblePatch(!v));
        var twice := Update(once, n, VisiblePatch(v));
        forall i | 0 <= i < |cs|
          ensures twice.children.list[i] == cs[i]
        {
          ToggleTwiceRestores(cs[i], n, v);
        }
        assert twice.children.list == cs;
    }
  }

  /**
   * `handleNameUpdate`: leaving the name editor issues `{ Name: edited }` only when the
   * edited text differs from the layer's name.
   */
  function RenameRequest(l: Layer, edited: string): (r: Option<LayerPatch>)
    ensures r.None? <==> edited == l.name
    ensures r.Some? ==> Apply(l, r.value) == l.(name := edited)
  {
    if edited != l.name then Some(NamePatch(edited)) else None
  }

  /** `handleVisibilityToggle`: the patch `{ Visible: !layer.Visible }`. */
  function TogglePatch(l: Layer): (p: LayerPatch)
    ensures Apply(l, p) == l.(visible := !l.visible)
  {
    VisiblePatch(!l.visible)
  }

  /**
   * A rename issued from the layer at `path`, with no layer of the same name above it,
   * gives that layer the edited name and leaves its kind, flag and children alone.
   */
  lemma {:induction false} RenameAt(root: Layer, path: seq<nat>, edited: string)
    requires Subtree(root, path).Some?
    requires var l := Subtree(root, path).value; !MatchAbove(root, path, l.name) && edited != l.name
    ensures var l := Subtree(root, path).value;
      Subtree(Update(root, l.name, RenameRequest(l, edited).value), path) == Some(l.(name := edited))
  {
    var l := Subtree(root, path).value;
    UpdateAt(root, l.name, RenameRequest(l, edited).value, path);
  }

  /**
   * A toggle issued from the layer at `path`, with no layer of the same name above it,
   * negates that layer's own flag and leaves the rest of the layer alone.
   */
  lemma {:induction false} ToggleAt(root: Layer, path: seq<nat>)
    requires Subtree(root, path).Some?
    requires var l := Subtree(root, path).value; !MatchAbove(root, path, l.name)
    ensures var l := Subtree(root, path).value;
      Subtree(Update(root, l.name, TogglePatch(l)), path) == Some(l.(visible := !l.visible))
  {
    var l := Subtree(root, path).value;
    UpdateAt(root, l.name, TogglePatch(l), path);
  }
}
