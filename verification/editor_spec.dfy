/**
 * What the demo's editor reducers do to the editable-polygon state, as
 * functions from the state before an action to the state after it. The
 * `EditorState.VisState` class, which updates the same state in place the way
 * the reducers do, is proved against these functions; `EditorLemmas` proves
 * the properties of the editor from them.
 */
module EditorSpec {
  import opened Wrappers
  import opened JsValues
  import opened Features
  import A = Actions

  /**
   * The editable-polygon part of `keplerGl.map.visState`: the first four fields
   * live in `visState.editor`, the last three directly in `visState`.
   * `newFeatureModal` is true, or null/absent (false).
   */
  datatype EditorView = EditorView(
    loadedFeatures: Option<seq<Feature>>,
    loadedLayers: Option<seq<JsValue>>,
    features: seq<Feature>,
    selectedFeature: Option<Feature>,
    newFeatureModal: bool,
    deletedIds: Option<seq<JsValue>>,
    customLayers: Option<seq<LayerMeta>>)

  /** The editor as the drawing tool creates it: no features, nothing fetched or selected. */
  const Initial := EditorView(None, None, [], None, false, None, None)

  /** A reducer either returns the next state or throws (a TypeError on an absent list). */
  datatype StepResult = Next(view: EditorView) | TypeErrorThrown

  /** Some feature of `fs` has an id `=== id`. */
  predicate HasFeatureId(fs: seq<Feature>, id: JsValue) {
    exists i :: 0 <= i < |fs| && StrictEquals(fs[i].id, id)
  }

  /** Every fetched layer id is a number (the result of `Number(...)`). */
  predicate LayersNumeric(v: EditorView) {
    v.loadedLayers.Some? ==> forall i :: 0 <= i < |v.loadedLayers.value| ==> IsNumber(v.loadedLayers.value[i])
  }

  // ----- FETCH_EDITABLE_SUCCESS -----

  /**
   * Initialise both lists to `[]` when absent; when `layerId` itself (compared
   * with `===`) is not among the fetched layers, append the fetched features and
   * record `Number(layerId)` as fetched.
   */
  function FetchEditable(v: EditorView, editables: seq<Feature>, layerId: JsValue): EditorView {
    var loaded := v.loadedFeatures.GetOr([]);
    var layers := v.loadedLayers.GetOr([]);
    if IndexOf(layers, layerId) == -1 then
      v.(loadedFeatures := Some(loaded + editables), loadedLayers := Some(layers + [ToNumber(layerId)]))
    else
      v.(loadedFeatures := Some(loaded), loadedLayers := Some(layers))
  }

  // ----- SET_EDITABLE_LAYERS -----

  /** The feature's top-level `layerId` is `===` one of `layerIds`. */
  predicate InLayers(f: Feature, layerIds: seq<JsValue>) {
    IndexOf(layerIds, f.layerId) != -1
  }

  /** The features of `fs` that belong to one of `layerIds`, in the order of `fs`. */
  function FilterByLayers(fs: seq<Feature>, layerIds: seq<JsValue>): seq<Feature> {
    if fs == [] then []
    else
      var last := fs[|fs| - 1];
      FilterByLayers(fs[..|fs| - 1], layerIds) + (if InLayers(last, layerIds) then [last] else [])
  }

  /** Recompute the active features from the loaded ones; throws when nothing was ever loaded. */
  function SetEditableLayers(v: EditorView, layerIds: seq<JsValue>): StepResult {
    if v.loadedFeatures.None? then TypeErrorThrown
    else Next(v.(features := FilterByLayers(v.loadedFeatures.value, layerIds)))
  }

  // ----- UPDATE_POLYGON_DETAILS -----

  /** The payload of an update: which polygon, and its new title, description and layer. */
  datatype Details = Details(polygonId: JsValue, title: JsValue, description: JsValue, layerId: JsValue)

  /** The feature's id is `==` the polygon id. */
  predicate Matches(f: Feature, polygonId: JsValue) {
    LooseEquals(f.id, polygonId)
  }

  /**
   * One matching feature after the update: a feature without custom properties
   * first gets an empty set of them and the new top-level layer id; then the
   * title, description and layer of its custom properties and its
   * `properties.layerId` are overwritten.
   */
  function Touch(f: Feature, d: Details): (g: Feature)
    ensures g.id == f.id && g.geometry == f.geometry
    ensures g.custom.Some?
    ensures g.custom.value.title == d.title && g.custom.value.description == d.description
    ensures g.custom.value.layerId == d.layerId && g.propertiesLayerId == d.layerId
    ensures f.custom.Some? ==> g.custom.value.id == f.custom.value.id && g.custom.value.geom == f.custom.value.geom
    ensures g.layerId == if f.custom.None? then d.layerId else f.layerId
  {
    var base := if f.custom.None? then f.(custom := Some(EmptyCustom), layerId := d.layerId) else f;
    base.(custom := Some(base.custom.value.(title := d.title, description := d.description, layerId := d.layerId)),
          propertiesLayerId := d.layerId)
  }

  /** `Number(layerId)` is `===` one of the fetched layers. */
  predicate LayerLoaded(layers: seq<JsValue>, layerId: JsValue) {
    IndexOf(layers, ToNumber(layerId)) != -1
  }

  /** The three things the update loop changes. */
  datatype UpdatePass = UpdatePass(features: seq<Feature>, selected: Option<Feature>, modal: bool)

  /**
   * The update loop from index `i` on: each matching feature is touched; when
   * layers have been fetched and the new layer is not among them it is spliced
   * out and the selection cleared, else it becomes the selection. The index
   * advances after a splice as well, so the feature that moved into the
   * spliced slot is not looked at.
   */
  function UpdateFrom(fs: seq<Feature>, i: nat, selected: Option<Feature>, modal: bool,
                      d: Details, layers: Option<seq<JsValue>>): UpdatePass
    decreases |fs| - i
  {
    if i >= |fs| then UpdatePass(fs, selected, modal)
    else if !Matches(fs[i], d.polygonId) then UpdateFrom(fs, i + 1, selected, modal, d, layers)
    else
      var g := Touch(fs[i], d);
      var modal' := if fs[i].custom.None? then false else modal;
      if layers.None? then UpdateFrom(fs[i := g], i + 1, selected, modal', d, layers)
      else if !LayerLoaded(layers.value, d.layerId) then UpdateFrom(fs[..i] + fs[i + 1..], i + 1, None, modal', d, layers)
      else UpdateFrom(fs[i := g], i + 1, Some(g), modal', d, layers)
  }

  function UpdatePolygonDetails(v: EditorView, d: Details): EditorView {
    var r := UpdateFrom(v.features, 0, v.selectedFeature, v.newFeatureModal, d, v.loadedLayers);
    v.(features := r.features, selectedFeature := r.selected, newFeatureModal := r.modal)
  }

  // ----- DELETE_POLYGON -----

  /** `fs` without its first feature whose id is `==` the polygon id. */
  function RemoveFirst(fs: seq<Feature>, polygonId: JsValue): seq<Feature> {
    if fs == [] then []
    else if Matches(fs[0], polygonId) then fs[1..]
    else [fs[0]] + RemoveFirst(fs[1..], polygonId)
  }

  /** Remove the first match from the active features, clear the selection, queue the id for deletion. */
  function DeletePolygon(v: EditorView, polygonId: JsValue): EditorView {
    v.(features := RemoveFirst(v.features, polygonId), selectedFeature := None,
       deletedIds := Some(v.deletedIds.GetOr([]) + [polygonId]))
  }

  /** Removing the first match when it sits at index `k`. */
  lemma {:induction false} RemoveFirstAt(fs: seq<Feature>, polygonId: JsValue, k: nat)
    requires k < |fs| && Matches(fs[k], polygonId)
    requires forall j :: 0 <= j < k ==> !Matches(fs[j], polygonId)
    ensures RemoveFirst(fs, polygonId) == fs[..k] + fs[k + 1..]
  {
    if k > 0 {
      RemoveFirstAt(fs[1..], polygonId, k - 1);
      assert fs[1..][..k - 1] + fs[1..][k..] == fs[1..k] + fs[k + 1..];
      assert [fs[0]] + fs[1..k] == fs[..k];
    }
  }

  /** With no match, nothing is removed. */
  lemma {:induction false} RemoveFirstNoMatch(fs: seq<Feature>, polygonId: JsValue)
    requires forall j :: 0 <= j < |fs| ==> !Matches(fs[j], polygonId)
    ensures RemoveFirst(fs, polygonId) == fs
  {
    if fs != [] {
      RemoveFirstNoMatch(fs[1..], polygonId);
    }
  }

  // ----- FETCH_LAYERS_METADATA_SUCCESS -----

  function FetchLayersMetadata(v: EditorView, metadata: seq<LayerMeta>): EditorView {
    v.(customLayers := Some(metadata))
  }

  // ----- SET_FEATURES (draw complete), before the drawing tool's own reducer -----

  /** `checkFeatureLoaded`: loaded features exist and one has the newest drawn feature's id (`===`). */
  predicate FeatureLoaded(loaded: Option<seq<Feature>>, drawn: seq<Feature>) {
    loaded.Some? && |drawn| > 0 && HasFeatureId(loaded.value, drawn[|drawn| - 1].id)
  }

  /** Append the newest drawn feature to the loaded ones and open the new-feature form, unless already loaded. */
  function RecordDrawn(v: EditorView, drawn: seq<Feature>): (r: EditorView)
    requires |drawn| > 0
    ensures FeatureLoaded(v.loadedFeatures, drawn) ==> r == v
    ensures !FeatureLoaded(v.loadedFeatures, drawn) ==>
      && r.newFeatureModal
      && r.loadedFeatures.Some?
      && |r.loadedFeatures.value| == |v.loadedFeatures.GetOr([])| + 1
      && r.loadedFeatures.value[..|v.loadedFeatures.GetOr([])|] == v.loadedFeatures.GetOr([])
      && r.loadedFeatures.value[|v.loadedFeatures.GetOr([])|] == drawn[|drawn| - 1]
      && r == v.(newFeatureModal := true, loadedFeatures := r.loadedFeatures)
  {
    if FeatureLoaded(v.loadedFeatures, drawn) then v
    else v.(newFeatureModal := true, loadedFeatures := Some(v.loadedFeatures.GetOr([]) + [drawn[|drawn| - 1]]))
  }

  // ----- composedReducer -----

  /**
   * One action through the composed reducer, restricted to this state: the
   * draw-complete pre-step, then the demo's own updaters; every other action
   * goes to reducers outside this model and leaves this state as it is here.
   */
  function Step(v: EditorView, a: A.Action): StepResult
    requires a.SetFeatures? ==> |a.features| > 0
  {
    if a.SetFeatures? then Next(RecordDrawn(v, a.features))
    else if a.SaveEditableToRemote? then Next(v)
    else if a.FetchLayersMetadataSuccess? then Next(FetchLayersMetadata(v, a.metadata))
    else if a.FetchEditableSuccess? then Next(FetchEditable(v, a.editables, a.layerId))
    else if a.SetEditableLayers? then SetEditableLayers(v, a.layerIds)
    else if a.UpdatePolygonDetails? then
      Next(UpdatePolygonDetails(v, Details(a.polygonId, a.title, a.description, a.layerId)))
    else if a.DeletePolygon? then Next(DeletePolygon(v, a.polygonId))
    else Next(v)
  }
}
