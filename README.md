# Quill Publisher layer panel and scene index, in Dafny

This project models the core of `src/App.tsx` of Quill Publisher, a desktop viewer for Quill
(VR painting) projects. It covers two parts.

- **The layer tree.** A project's `Sequence.RootLayer` is a tree of `QuillLayer`s. The panel
  edits it with `updateLayer`, a recursive rebuild that merges a partial update into every
  layer of the target name that has no layer of that name above it. It also computes each row's effective visibility (`parentVisible
  && layer.Visible`, passed down from the root). It issues renames and visibility toggles.
- **The scene index.** `Scene` rebuilds the global dictionaries `fbxObjects` (name to
  object) and `originalMaterials` (mesh name to material) by traversing the loaded FBX
  asset. The rows' handlers use them to set an object's `visible` flag, to highlight a
  subtree's meshes on hover, and to restore their materials when the pointer leaves.

Files:

- `wrappers.dfy`: `Option`.
- `layer_tree.dfy` (module `LayerTree`): `Layer`, `LayerPatch` (`Partial<QuillLayer>`),
  `Project`, the spread `Apply`, the recursive `Update`, the rename and toggle requests, and
  lemmas about `Update` at every position of the tree (`Subtree` by child-index path).
- `visibility.dfy` (module `Visibility`): the `parentVisible` threading and the effective
  visibility of the row at any path, tied to the flags of the layer's ancestors.
- `scene_graph.dfy` (module `SceneGraph`): the loaded asset, a class whose objects are
  handles. Names, mesh flags and children are fixed. `material` and `visible` are arrays the
  handlers write. `PreOrder` is `Object3D.traverse`'s visiting order.
- `scene_index.dfy` (module `SceneIndex`): the class `Index` with the two dictionaries and
  the members `Build`, `Lookup`, `SetVisible`, `Highlight` and `Unhighlight`. `Build`,
  `Highlight` and `Unhighlight` are loops over the traversal, proved against the
  specification functions `LastNamed`, `Capture`, `Highlighted` and `Restored`. `Lookup` is
  a function and `SetVisible` a single write. Lemmas cover last-write-wins, first-capture-wins,
  idempotence and hover round trips.
- `session.dfy` (module `ProjectSession`): the `App` state (`project`, or none) and the
  handlers that combine the two parts: toggle, rename, load, save and scene build.

The model follows what the code does:

- `updateLayerRecursive` does not stop at the first match. It rewrites every layer of the
  target name that has no match above it, because siblings are all mapped.
- It rebuilds every layer that has a `Children` array and no match above it, on the path to
  a match or not. A matched layer becomes a new object that shares its `Implementation`, so
  every layer below a match keeps its identity. Unmatched leaves keep theirs too.
- Original materials are captured eagerly when the index is built, not only on the first
  highlight. Their keys are mesh names, so meshes of the same name share one entry (see
  `SceneIndex.SameNameShareRestore`).
- A failed or cancelled load leaves the current project in place, because the `catch` in
  `loadProject` only logs. A file that parses to `null` or another falsy JSON value
  (`false`, `0`, `""`) clears the project: the app then treats it as no project.
- There is no load generation counter and no session state machine.
- Renames never touch the scene index.

## Model

| member | source | states |
|---|---|---|
| `LayerTree.Apply` | src/App.tsx:296-298 | `{...layer, ...updates}`: every field present in the patch replaces the layer's own, absent fields and the children are kept |
| `LayerTree.HasChildren` | src/App.tsx:146 | `hasChildren` holds exactly when the layer has a first child, so its row has a child row to expand |
| `LayerTree.Update` | src/App.tsx:295-311 | a layer named the target becomes its patched copy; any other layer keeps name, type and flag, and has a `Children` array exactly when it had one, of the same length |
| `LayerTree.UpdateMissIsIdentity` | src/App.tsx:293-311 | an update whose target names no layer returns a tree equal to the input |
| `LayerTree.UpdateAt` | src/App.tsx:295-311 | the positions of the tree are the same after an update; at each, a layer below a match is untouched and any other layer is the update of the original layer there |
| `LayerTree.UpdateAtFields` | src/App.tsx:296-310 | at each position, a layer named the target with no match above it takes the patched fields; every other layer keeps name, type and flag; `hasChildren` never changes |
| `LayerTree.ToggleTwiceRestores` | src/App.tsx:173-174 | when every layer of a name that the update reaches (no layer of that name above it) has flag `v`, setting them to `!v` and back to `v` gives back the original tree |
| `LayerTree.RenameRequest` | src/App.tsx:160-165 | an update is issued exactly when the edited name differs from the layer's name, and that update changes only the name |
| `LayerTree.TogglePatch` | src/App.tsx:173-174 | the toggle's patch negates the layer's own flag and changes nothing else |
| `LayerTree.RenameAt` | src/App.tsx:160-165 | a rename issued from the row at a path, with no same-named layer above, renames that layer and keeps its type, flag and children |
| `LayerTree.ToggleAt` | src/App.tsx:173-174 | a toggle issued from the row at a path, with no same-named layer above, negates that layer's flag and keeps the rest |
| `Visibility.Effective` | src/App.tsx:150 | a row is effectively visible only if its own flag is set, and never when its parent is not |
| `Visibility.InheritedAt` | src/App.tsx:273-280 | the `parentVisible` a row receives exists exactly for the valid paths, and is true only if the root's is |
| `Visibility.EffectiveAt` | src/App.tsx:150 | a row at a path has an effective visibility exactly when the path is valid, and it is true only if the layer's own flag is set |
| `Visibility.ToggleEnabledAt` | src/App.tsx:241 | a row at a path has a toggle state exactly when the path is valid, and the root row's toggle is always enabled (`parentVisible` defaults to true) |
| `Visibility.InheritedIsAncestorsVisible` | src/App.tsx:131-150 | the threaded `parentVisible` equals the root's value and the own flag of every layer strictly above |
| `Visibility.EffectiveIsAllVisible` | src/App.tsx:150 | a row shows visible exactly when its own flag and every ancestor's flag are set (root default `true`) |
| `Visibility.HiddenAncestorHides` | src/App.tsx:233-244 | a hidden ancestor makes every descendant show hidden, whatever its own flag, and disables its toggle |
| `Visibility.ToggleDisabledIff` | src/App.tsx:241 | a row's toggle is disabled exactly when some layer above it has its flag cleared |
| `SceneGraph.Asset.PreOrder` | src/App.tsx:62 | the traversal starts at the object itself; every visited handle is a handle of the asset no smaller than it |
| `SceneGraph.Asset.PreOrderInSubtree` | src/App.tsx:62 | the traversal from an object visits only that object and objects below it (`Descends`) |
| `SceneGraph.Asset.SubtreeVisited` | src/App.tsx:187 | conversely, `traverse` visits every object in the subtree of the object it starts from |
| `SceneIndex.LastNamed` | src/App.tsx:62-70 | every entry left by the traversal's writes maps a name to an object of that name, named (and a mesh for the material dictionary) |
| `SceneIndex.LastNamedIsLast` | src/App.tsx:59-70 | a name is indexed exactly when a visited (named, mesh when required) object carries it, and it maps to the last such object visited |
| `SceneIndex.Capture` | src/App.tsx:187-192 | entries stored before a hover are never overwritten; new entries are names of visited meshes; every visited mesh's name has an entry afterwards |
| `SceneIndex.CaptureIsFirst` | src/App.tsx:189-192 | a name with no entry before the hover gets the material the first visited mesh of that name had |
| `SceneIndex.CaptureCovered` | src/App.tsx:189-192 | a hover whose every mesh name already has an entry stores nothing |
| `SceneIndex.CaptureTwice` | src/App.tsx:189-192 | hovering twice stores the same originals as hovering once |
| `SceneIndex.HighlightTwiceThenRestore` | src/App.tsx:182-218 | enter, enter, leave ends as enter, leave does: each visited mesh shows the material first stored under its name |
| `SceneIndex.HoverRoundTrip` | src/App.tsx:182-218 | with stored originals that agree with the meshes and no two meshes of one name, enter then leave restores every material |
| `SceneIndex.SameNameShareRestore` | src/App.tsx:190-214 | two meshes of one name with no stored entry both end, after enter and leave, with the pre-hover material of the first mesh of that name visited |
| `SceneIndex.CaptureAgrees` | src/App.tsx:189-192 | a hover keeps the stored originals in agreement with the meshes' materials before it, when mesh names are unique |
| `SceneIndex.BuildAgrees` | src/App.tsx:62-70 | after a build the stored originals agree with the meshes' current materials, when mesh names are unique |
| `SceneIndex.Index.constructor` | src/App.tsx:9-14 | before any scene is built there is no asset and both dictionaries are empty |
| `SceneIndex.Index.Lookup` | src/App.tsx:183 | the lookup succeeds exactly for indexed names and yields an object of the asset carrying that name |
| `SceneIndex.Index.Build` | src/App.tsx:59-70 | the dictionaries are reset and refilled by the traversal of the new asset: last named object per name, material of the last named mesh per name |
| `SceneIndex.Index.SetVisible` | src/App.tsx:176-179 | the indexed object's `visible` becomes the value; an unknown name changes no object |
| `SceneIndex.Index.Highlight` | src/App.tsx:182-203 | an unknown name changes nothing; otherwise the originals become `Capture` over the subtree and every mesh of the subtree shows the highlight, others unchanged |
| `SceneIndex.Index.Unhighlight` | src/App.tsx:205-219 | an unknown name changes nothing; otherwise each mesh of the subtree with a stored entry takes it back; the originals are never removed |
| `ProjectSession.UpdateProject` | src/App.tsx:291-320 | no project stays no project; a loaded project keeps its version and gets its root layer updated |
| `ProjectSession.UpdateProjectMiss` | src/App.tsx:291-320 | an update whose target names no layer leaves the project (or its absence) unchanged |
| `ProjectSession.Session.constructor` | src/App.tsx:289 | the app starts with no project and an index with no asset and empty dictionaries |
| `ProjectSession.Session.UpdateLayer` | src/App.tsx:291-321 | the project becomes `UpdateProject` of the old one |
| `ProjectSession.Session.ToggleVisibility` | src/App.tsx:173-180 | the layers of the row's name take the negated flag; the indexed object, if any, takes the same value; otherwise no object changes |
| `ProjectSession.Session.Rename` | src/App.tsx:160-165 | an unchanged name leaves the project alone; a changed one updates the layers of the old name with the new name |
| `ProjectSession.Session.Load` | src/App.tsx:323-343 | whatever the file parses to, `null` included, replaces the project wholesale; a cancelled or failed load keeps the current one |
| `ProjectSession.Session.Save` | src/App.tsx:345-364 | the document written is the current project; nothing is written when there is none |
| `ProjectSession.Session.SceneLoaded` | src/App.tsx:54-70 | rendering the scene rebuilds the index from the new asset |
| `ProjectSession.LoadThenSave` | src/App.tsx:323-364 | saving right after loading writes the loaded document back unchanged |

## Left out

- Object identity is not modelled, because layers are Dafny values. The code rebuilds every
  matched layer and every unmatched layer with a `Children` array that has no match above
  it. It keeps unmatched leaves and everything below a match by reference. Whether a
  subtree is shared or copied is not visible in the model.
- `Partial<QuillLayer>` is limited to `Name`, `Type` and `Visible`. The panel sends only
  `{ Name }` (rename) and `{ Visible }` (toggle); `Type` is modelled but never sent. A
  patch carrying `Implementation` is not modelled.
- Other fields of the project document are not modelled. Only `Version` and the layer fields
  are. The rest is what `JSON.parse` and `JSON.stringify` carry through unchanged.
- File dialogs, `readTextFile`/`writeTextFile`, `JSON.parse`/`JSON.stringify` and their
  errors are I/O. A load is a parameter, a `LoadOutcome`: cancelled, failed, or parsed to a
  document or to `null`. A save returns the document that would be written.
- `Session.Load` does not model parsed JSON that is not a project. The code stores any
  parsed value without checking its shape. The model only takes a well-shaped project or
  `null`, which also stands for the other falsy values the app treats as no project.
- `useFBX` loading, the error-fallback scene, lights, controls, grid and all rendering are
  left out. The asset is a parameter of `Build`. `Build` runs whenever `Scene` renders. When
  React renders it is not modelled.
- The highlight material is one token (`HighlightMaterial`). The code makes a new
  `MeshStandardMaterial` (white, opacity 0.8) for each mesh. Its colour and opacity are
  floats and are not modelled.
- SceneIndex.Index.Lookup: `fbxObjects` and `originalMaterials` are plain JavaScript
  objects, not maps. Names that are `Object.prototype` members (`__proto__`, `constructor`,
  `toString`, …) read inherited values there: a layer named `toString` gets a toggle button
  and its hover throws, and an object named `__proto__` replaces the dictionary's prototype
  instead of adding an entry. The model's maps have no such keys, so `Lookup` succeeding
  exactly for indexed names holds only for names that are not such members.
- JavaScript's truthiness test on a stored original is modelled as the key being present.
  Materials are objects, so a stored one is always truthy.
- `traverse` is modelled by its visiting order (`PreOrder`), with a loop over that order.
  The loaded FBX asset is a tree, and the model numbers its children after their parent.
  `Asset.Valid` also accepts an object listed under two parents, which a three.js object
  with its single `parent` cannot be. Such an object is simply visited once per parent.
- The local `objectsByName` and `toggleVisibility` in `Scene` are not modelled. They are
  never used outside it and have the same last-write-wins content as `objects`.
- React state of a row (`isExpanded`, `isEditing`, `editedName`, key handling), icons and
  class strings are left out. So is the condition `hasFBXObject` that shows the toggle
  button. The handler itself tolerates a missing object, and the model follows the handler.
- `src/utils/exporter.ts` is not part of this model. It is a save dialog, a temporary
  settings file and an external command, with no logic to verify.
