/**
 * The editor reducers as the demo runs them: they update the fields of
 * `visState` and `visState.editor` in place (pushing onto `loadedLayers` and
 * `deletedIds`, splicing `features`, assigning nested fields), and the two
 * linear searches they use. Each method is proved against `EditorSpec`.
 */
module EditorState {
  import opened Wrappers
  import opened JsValues
  import opened Features
  import A = Actions
  import Spec = EditorSpec

  /** `checkExistingFeature`: some element of `featuresArray` has the feature's id (`===`). */
  method CheckExistingFeature(featuresArray: seq<Feature>, feature: Feature) returns (found: bool)
    ensures found <==> Spec.HasFeatureId(featuresArray, feature.id)
  {
    var i := 0;
    while i < |featuresArray|
      invariant 0 <= i <= |featuresArray|
      invariant forall j :: 0 <= j < i ==> !StrictEquals(featuresArray[j].id, feature.id)
    {
      if StrictEquals(featuresArray[i].id, feature.id) {
        return true;
      }
      i := i + 1;
    }
    return false;
  }

  /**
   * `checkFeatureLoaded`: false when nothing was ever loaded, else whether a
   * loaded feature has the id (`===`) of the most recently drawn feature. The
   * source reads the id of `undefined` (and throws) when features are loaded
   * but none was drawn; callers never do that.
   */
  method CheckFeatureLoaded(loadedFeatures: Option<seq<Feature>>, editorFeatures: seq<Feature>) returns (loaded: bool)
    requires loadedFeatures.Some? && |loadedFeatures.value| > 0 ==> |editorFeatures| > 0
    ensures loaded <==> Spec.FeatureLoaded(loadedFeatures, editorFeatures)
  {
    if loadedFeatures.None? {
      return false;
    }
    var loadedList := loadedFeatures.value;
    var i := 0;
    while i < |loadedList|
      invariant 0 <= i <= |loadedList|
      invariant forall j :: 0 <= j < i ==> !StrictEquals(loadedList[j].id, editorFeatures[|editorFeatures| - 1].id)
    {
      var feature := editorFeatures[|editorFeatures| - 1];
      if StrictEquals(loadedList[i].id, feature.id) {
        return true;
      }
      i := i + 1;
    }
    return false;
  }

  /** The editable-polygon fields of `keplerGl.map.visState`, updated in place by the reducers. */
  class VisState {
    // visState.editor
    var loadedFeatures: Option<seq<Feature>>
    var loadedLayers: Option<seq<JsValue>>
    var features: seq<Feature>
    var selectedFeature: Option<Feature>
    // visState
    var newFeatureModal: bool
    var deletedIds: Option<seq<JsValue>>
    var customLayers: Option<seq<LayerMeta>>

    function View(): Spec.EditorView
      reads this
    {
      Spec.EditorView(loadedFeatures, loadedLayers, features, selectedFeature, newFeatureModal, deletedIds, customLayers)
    }

    constructor ()
      ensures View() == Spec.Initial
    {
      loadedFeatures, loadedLayers := None, None;
      features, selectedFeature := [], None;
      newFeatureModal, deletedIds, customLayers := false, None, None;
    }

    /** FETCH_LAYERS_METADATA_SUCCESS: the layer catalogue is replaced, nothing else changes. */
    method FetchLayersMetadataSuccess(metadata: seq<LayerMeta>)
      modifies this
      ensures customLayers == Some(metadata)
      ensures View() == old(View()).(customLayers := Some(metadata))
      ensures View() == Spec.FetchLayersMetadata(old(View()), metadata)
    {
      customLayers := Some(metadata);
    }

    /**
     * FETCH_EDITABLE_SUCCESS: both lists are created empty when absent; when
     * `layerId` is not `===` a fetched layer, the fetched features are appended
     * without removing duplicate ids and `Number(layerId)` is appended to the
     * fetched layers; otherwise both stay as they were. The active features are
     * never touched.
     */
    method FetchEditableSuccess(editables: seq<Feature>, layerId: JsValue)
      modifies this
      ensures var loaded := old(loadedFeatures).GetOr([]);
              var layers := old(loadedLayers).GetOr([]);
              if IndexOf(layers, layerId) == -1 then
                loadedFeatures == Some(loaded + editables) && loadedLayers == Some(layers + [ToNumber(layerId)])
              else
                loadedFeatures == Some(loaded) && loadedLayers == Some(layers)
      ensures features == old(features) && selectedFeature == old(selectedFeature)
      ensures newFeatureModal == old(newFeatureModal) && deletedIds == old(deletedIds)
      ensures customLayers == old(customLayers)
      ensures View() == Spec.FetchEditable(old(View()), editables, layerId)
    {
      if loadedFeatures.None? {
        loadedFeatures := Some([]);
      }
      if loadedLayers.None? {
        loadedLayers := Some([]);
      }
      var loaded := loadedFeatures.value;
      var layers := loadedLayers.value;
      if IndexOf(layers, layerId) == -1 {
        loadedFeatures := Some(loaded + editables);
        loadedLayers := Some(layers + [ToNumber(layerId)]);
      }
    }

    /**
     * SET_EDITABLE_LAYERS: the active features become exactly the loaded
     * features whose top-level `layerId` is `===` one of `layerIds`, in loaded
     * order; throws (changing nothing) when nothing was ever loaded.
     */
    method SetEditableLayers(layerIds: seq<JsValue>) returns (threw: bool)
      modifies this
      ensures threw <==> old(loadedFeatures).None?
      ensures threw ==> View() == old(View())
      ensures !threw ==> features == Spec.FilterByLayers(old(loadedFeatures).value, layerIds)
      ensures !threw ==> View() == old(View()).(features := features)
      ensures Spec.SetEditableLayers(old(View()), layerIds) == if threw then Spec.TypeErrorThrown else Spec.Next(View())
    {
      if loadedFeatures.None? {
        return true;
      }
      var loaded := loadedFeatures.value;
      var active := [];
      var i := 0;
      while i < |loaded|
        invariant 0 <= i <= |loaded|
        invariant active == Spec.FilterByLayers(loaded[..i], layerIds)
      {
        assert loaded[..i + 1][..i] == loaded[..i];
        if IndexOf(layerIds, loaded[i].layerId) != -1 {
          active := active + [loaded[i]];
        }
        i := i + 1;
      }
      assert loaded[..i] == loaded;
      features := active;
      threw := false;
    }

    /**
     * UPDATE_POLYGON_DETAILS: the update loop over the active features (see
     * `EditorSpec.UpdateFrom`); the loaded features, fetched layers, deleted
     * ids and layer catalogue do not change.
     */
    method UpdatePolygonDetails(polygonId: JsValue, title: JsValue, description: JsValue, layerId: JsValue)
      modifies this
      ensures var d := Spec.Details(polygonId, title, description, layerId);
              var r := Spec.UpdateFrom(old(features), 0, old(selectedFeature), old(newFeatureModal), d, old(loadedLayers));
              features == r.features && selectedFeature == r.selected && newFeatureModal == r.modal
      ensures loadedFeatures == old(loadedFeatures) && loadedLayers == old(loadedLayers)
      ensures deletedIds == old(deletedIds) && customLayers == old(customLayers)
      ensures View() == Spec.UpdatePolygonDetails(old(View()), Spec.Details(polygonId, title, description, layerId))
    {
      ghost var d := Spec.Details(polygonId, title, description, layerId);
      var fs := features;
      var i: nat := 0;
      while i < |fs|
        invariant Spec.UpdateFrom(fs, i, selectedFeature, newFeatureModal, d, loadedLayers)
               == Spec.UpdateFrom(old(features), 0, old(selectedFeature), old(newFeatureModal), d, old(loadedLayers))
        invariant loadedFeatures == old(loadedFeatures) && loadedLayers == old(loadedLayers)
        invariant features == old(features)
        invariant deletedIds == old(deletedIds) && customLayers == old(customLayers)
        decreases |fs| - i
      {
        if LooseEquals(fs[i].id, polygonId) {
          ghost var before := fs;
          // new polygons get custom properties and their layer
          if fs[i].custom.None? {
            fs := fs[i := fs[i].(custom := Some(EmptyCustom), layerId := layerId)];
            newFeatureModal := false;
          }
          var custom := fs[i].custom.value;
          fs := fs[i := fs[i].(custom := Some(custom.(title := title, description := description, layerId := layerId)),
                               propertiesLayerId := layerId)];
          assert fs == before[i := Spec.Touch(before[i], d)];
          if loadedLayers.Some? {
            if IndexOf(loadedLayers.value, ToNumber(layerId)) == -1 {
              fs := fs[..i] + fs[i + 1..];
              assert fs == before[..i] + before[i + 1..];
              selectedFeature := None;
            } else {
              selectedFeature := Some(fs[i]);
            }
          }
        }
        i := i + 1;
      }
      features := fs;
    }

    /**
     * DELETE_POLYGON: only the first active feature whose id is `==` the polygon
     * id is removed, the others keep their order; the selection is cleared;
     * the id is appended to the deleted ids (created when absent) whether or not
     * a feature matched. The loaded features stay as they were.
     */
    method DeletePolygon(polygonId: JsValue)
      modifies this
      ensures features == Spec.RemoveFirst(old(features), polygonId)
      ensures selectedFeature.None?
      ensures deletedIds == Some(old(deletedIds).GetOr([]) + [polygonId])
      ensures loadedFeatures == old(loadedFeatures) && loadedLayers == old(loadedLayers)
      ensures newFeatureModal == old(newFeatureModal) && customLayers == old(customLayers)
      ensures View() == Spec.DeletePolygon(old(View()), polygonId)
    {
      var fs := features;
      var i := 0;
      ghost var removed := false;
      while i < |fs|
        invariant 0 <= i <= |fs| && fs == features && !removed
        invariant forall j :: 0 <= j < i ==> !Spec.Matches(fs[j], polygonId)
      {
        if LooseEquals(fs[i].id, polygonId) {
          Spec.RemoveFirstAt(fs, polygonId, i);
          fs := fs[..i] + fs[i + 1..];
          removed := true;
          break;
        }
        i := i + 1;
      }
      if !removed {
        Spec.RemoveFirstNoMatch(fs, polygonId);
      }
      if deletedIds.None? {
        assert [] + [polygonId] == [polygonId];
        deletedIds := Some([polygonId]);
      } else {
        deletedIds := Some(deletedIds.value + [polygonId]);
      }
      features, selectedFeature := fs, None;
    }

    /**
     * `composedReducer` restricted to this state: on a draw-complete action the
     * newest drawn feature is appended to the loaded features and the
     * new-feature form opened unless a loaded feature already has its id; then
     * the demo's own updater for the action runs.
     */
    method Reduce(action: A.Action) returns (threw: bool)
      requires action.SetFeatures? ==> |action.features| > 0
      modifies this
      ensures Spec.Step(old(View()), action) == if threw then Spec.TypeErrorThrown else Spec.Next(View())
      ensures threw ==> View() == old(View())
    {
      threw := false;
      if action.SetFeatures? {
        var drawn := action.features;
        var loaded := CheckFeatureLoaded(loadedFeatures, drawn);
        if !loaded {
          // set new feature modal as true
          newFeatureModal := true;
          var newestFeature := drawn[|drawn| - 1];
          if loadedFeatures.Some? {
            loadedFeatures := Some(loadedFeatures.value + [newestFeature]);
          } else {
            assert [] + [newestFeature] == [newestFeature];
            loadedFeatures := Some([newestFeature]);
          }
        }
      } else if action.SaveEditableToRemote? {
      } else if action.FetchLayersMetadataSuccess? {
        FetchLayersMetadataSuccess(action.metadata);
      } else if action.FetchEditableSuccess? {
        FetchEditableSuccess(action.editables, action.layerId);
      } else if action.SetEditableLayers? {
        threw := SetEditableLayers(action.layerIds);
      } else if action.UpdatePolygonDetails? {
        UpdatePolygonDetails(action.polygonId, action.title, action.description, action.layerId);
      } else if action.DeletePolygon? {
        DeletePolygon(action.polygonId);
      }
    }
  }
}
