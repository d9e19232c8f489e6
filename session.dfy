/**
 * The `App` component and the handlers of `LayerItem` in src/App.tsx: the loaded project,
 * the layer updates the panel issues, and the visibility pushed to the scene index.
 */
module ProjectSession {
  import opened Wrappers
  import opened LayerTree
  import opened SceneGraph
  import opened SceneIndex

  /** `setProject` with `updateLayer`'s updater: no project stays no project, else the root layer is updated. */
  function UpdateProject(project: Option<Project>, target: string, p: LayerPatch): (r: Option<Project>)
    ensures r.Some? <==> project.Some?
    ensures r.Some? ==> r.value.version == project.value.version
    ensures r.Some? ==> r.value.root == Update(project.value.root, target, p)
  {
    match project
    case None => None
    case Some(pr) => Some(pr.(root := Update(pr.root, target, p)))
  }

  /** An update whose target names no layer leaves the project as it was, loaded or not. */
  lemma UpdateProjectMiss(project: Option<Project>, target: string, p: LayerPatch)
    requires project.Some? ==> !Occurs(project.value.root, target)
    ensures UpdateProject(project, target, p) == project
  {
    if project.Some? {
      UpdateMissIsIdentity(project.value.root, target, p);
    }
  }

  /**
   * How `loadProject` ends: the dialog was cancelled, reading or parsing threw, or the file
   * parsed to a document (`None` for a JSON `null`).
   */
  datatype LoadOutcome = Cancelled | Failed | Parsed(document: Option<Project>)

  class Session {
    /** `project`; `None` is `null`. */
    var project: Option<Project>
    /** The scene dictionaries, filled each time the scene is built. */
    const index: Index

    constructor ()
      ensures project == None && fresh(index) && index.Valid() && index.asset == null
    {
      project := None;
      index := new Index();
    }

    /** `updateLayer`. */
    method UpdateLayer(target: string, p: LayerPatch)
      modifies this
      ensures project == UpdateProject(old(project), target, p)
    {
      project := UpdateProject(project, target, p);
    }

    /**
     * `handleVisibilityToggle` on the row showing `layer`: the layers of that name take the
     * negated flag, and so does the object indexed under the name, if any.
     */
    method ToggleVisibility(layer: Layer)
      requires index.Valid()
      modifies this, if index.asset == null then {} else {index.asset.visible}
      ensures project == UpdateProject(old(project), layer.name, TogglePatch(layer))
      ensures layer.name in index.objects ==>
        index.asset.visible[..] == old(index.asset.visible[..])[index.objects[layer.name] := !layer.visible]
      ensures index.asset != null && layer.name !in index.objects ==>
        index.asset.visible[..] == old(index.asset.visible[..])
    {
      UpdateLayer(layer.name, TogglePatch(layer));
      index.SetVisible(layer.name, !layer.visible);
    }

    /** `handleNameUpdate` on the row showing `layer`: an update only when the name was changed. */
    method Rename(layer: Layer, edited: string)
      modifies this
      ensures edited == layer.name ==> project == old(project)
      ensures edited != layer.name ==> project == UpdateProject(old(project), layer.name, NamePatch(edited))
    {
      match RenameRequest(layer, edited)
      case None =>
      case Some(p) =>
        UpdateLayer(layer.name, p);
    }

    /**
     * `loadProject`: whatever the file parses to replaces the project wholesale, a `null`
     * document included; a cancelled dialog or a failed read or parse keeps the current one.
     */
    method Load(outcome: LoadOutcome)
      modifies this
      ensures outcome.Parsed? ==> project == outcome.document
      ensures !outcome.Parsed? ==> project == old(project)
    {
      match outcome
      case Parsed(document) =>
        project := document;
      case Cancelled =>
      case Failed =>
    }

    /** `saveProject`: the document written, `None` when there is no project to save. */
    method Save() returns (written: Option<Project>)
      ensures written == project
    {
      written := project;
    }

    /** The scene is (re)built from a loaded asset. */
    method SceneLoaded(a: Asset)
      requires a.Valid()
      modifies index
      ensures index.Valid() && index.asset == a
      ensures index.objects == LastNamed(a, a.PreOrder(0), false)
      ensures index.originals == MaterialsOf(a.material[..], LastNamed(a, a.PreOrder(0), true))
    {
      index.Build(a);
    }
  }

  /** Saving right after loading writes the loaded document back unchanged. */
  method LoadThenSave(s: Session, parsed: Project) returns (written: Option<Project>)
    modifies s
    ensures written == Some(parsed)
  {
    s.Load(Parsed(Some(parsed)));
    written := s.Save();
  }
}
