/**
 * `loadEditableData` and `loadEditableDataLayer`: the polygon rows of the
 * persistence service become editable features, which are handed to the
 * editor with a fetch-success action, or an error action is dispatched. The
 * network and the well-known-text parser are inputs: the response is the
 * parsed row list or `None` when the request or the JSON decoding failed, and
 * `parse` stands for the parser.
 */
module Loaders {
  import opened Wrappers
  import opened JsValues
  import opened Features
  import A = Actions
  import Spec = EditorSpec
  import Lemmas = EditorLemmas
  import Sync

  /** The message both loaders report on failure (status 404). */
  const LoadFailure := A.RemoteError(404, A.Text(Str("Couldn't save editable polygons")))

  /**
   * `features` are the rows' features in row order: the row's id and parsed
   * geometry, the row itself as custom properties, and the row's layer as the
   * top-level layer when `withLayer` holds (none otherwise).
   */
  predicate BuiltFrom(features: seq<Feature>, rows: seq<Record>, parse: JsValue -> Geometry, withLayer: bool) {
    && |features| == |rows|
    && forall i :: 0 <= i < |rows| ==>
         features[i] == Feature(rows[i].id, parse(rows[i].geom), Some(rows[i]), Undefined,
                                if withLayer then rows[i].layerId else Undefined)
  }

  /** The conversion loop of `loadEditableData`: no top-level layer. */
  method PolygonsToFeatures(listPoly: seq<Record>, parse: JsValue -> Geometry) returns (features: seq<Feature>)
    ensures BuiltFrom(features, listPoly, parse, false)
  {
    features := [];
    for i := 0 to |listPoly|
      invariant BuiltFrom(features, listPoly[..i], parse, false)
    {
      var feature := Feature(listPoly[i].id, parse(listPoly[i].geom), Some(listPoly[i]), Undefined, Undefined);
      features := features + [feature];
    }
    assert listPoly[..|listPoly|] == listPoly;
  }

  /** The conversion loop of `loadEditableDataLayer`: the row's `layer_id` becomes the top-level layer. */
  method LayerPolygonsToFeatures(listPoly: seq<Record>, parse: JsValue -> Geometry) returns (features: seq<Feature>)
    ensures BuiltFrom(features, listPoly, parse, true)
  {
    features := [];
    for i := 0 to |listPoly|
      invariant BuiltFrom(features, listPoly[..i], parse, true)
    {
      var feature := Feature(listPoly[i].id, parse(listPoly[i].geom), Some(listPoly[i]), Undefined, listPoly[i].layerId);
      features := features + [feature];
    }
    assert listPoly[..|listPoly|] == listPoly;
  }

  /** `loadEditableData()`: all polygons, handed over without a layer id. */
  method LoadEditableData(response: Option<seq<Record>>, parse: JsValue -> Geometry) returns (dispatched: A.Action)
    ensures response.None? ==> dispatched == A.LoadRemoteResourceError(LoadFailure, A.AllPolygons)
    ensures response.Some? ==> dispatched.FetchEditableSuccess? && dispatched.layerId == Undefined
                               && BuiltFrom(dispatched.editables, response.value, parse, false)
  {
    if response.None? {
      return A.LoadRemoteResourceError(LoadFailure, A.AllPolygons);
    }
    var features := PolygonsToFeatures(response.value, parse);
    dispatched := A.FetchEditableSuccess(features, Undefined);
  }

  /** `loadEditableDataLayer(layerId)`: the polygons of one layer, handed over with the layer id as given. */
  method LoadEditableDataLayer(layerId: JsValue, response: Option<seq<Record>>, parse: JsValue -> Geometry)
    returns (dispatched: A.Action)
    ensures response.None? ==> dispatched == A.LoadRemoteResourceError(LoadFailure, A.PolygonsOfLayer(layerId))
    ensures response.Some? ==> dispatched.FetchEditableSuccess? && dispatched.layerId == layerId
                               && BuiltFrom(dispatched.editables, response.value, parse, true)
  {
    if response.None? {
      return A.LoadRemoteResourceError(LoadFailure, A.PolygonsOfLayer(layerId));
    }
    var features := LayerPolygonsToFeatures(response.value, parse);
    dispatched := A.FetchEditableSuccess(features, layerId);
  }

  /**
   * Load then save: a loaded polygon whose id is a whole number, saved
   * without edits, becomes an update of its own row with the row's title,
   * description and layer.
   */
  lemma LoadedRowSavesAsUpdate(features: seq<Feature>, rows: seq<Record>, parse: JsValue -> Geometry,
                               withLayer: bool, i: nat)
    requires BuiltFrom(features, rows, parse, withLayer) && i < |rows|
    requires IsWholeNumber(rows[i].id)
    ensures Sync.RequestFor(features[i]) == Sync.Update(rows[i].id, rows[i].title, rows[i].description,
                                                         parse(rows[i].geom), rows[i].layerId)
  {
  }

  /**
   * The polygons of the all-polygons load have no top-level layer, so
   * selecting layers by numeric id never makes any of them active.
   */
  lemma AllPolygonsNeverSelected(features: seq<Feature>, rows: seq<Record>, parse: JsValue -> Geometry,
                                 layerIds: seq<JsValue>)
    requires BuiltFrom(features, rows, parse, false)
    requires forall j :: 0 <= j < |layerIds| ==> IsNumber(layerIds[j])
    ensures Spec.FilterByLayers(features, layerIds) == []
  {
    assert IndexOf(layerIds, Undefined) == -1;
    assert forall i :: 0 <= i < |features| ==> features[i].layerId == Undefined;
    Lemmas.FilterByLayersDropsAll(features, layerIds);
  }

  /**
   * Loading layer `n` from the load dialog (which passes the text `String(n)`)
   * and then selecting layers that include `n`: the rows of layer `n` become
   * active after the previously loaded features of the selected layers.
   */
  lemma LayerLoadThenSelect(v: Spec.EditorView, features: seq<Feature>, rows: seq<Record>,
                            parse: JsValue -> Geometry, n: int, layerIds: seq<JsValue>)
    requires Spec.LayersNumeric(v)
    requires BuiltFrom(features, rows, parse, true)
    requires forall i :: 0 <= i < |rows| ==> rows[i].layerId == Num(n as real)
    requires IndexOf(layerIds, Num(n as real)) != -1
    ensures var v1 := Spec.FetchEditable(v, features, Str(IntToDecimal(n)));
            var r := Spec.SetEditableLayers(v1, layerIds);
            r.Next? && r.view.features == Spec.FilterByLayers(v.loadedFeatures.GetOr([]), layerIds) + features
  {
    DecimalRoundTrip(n);
    Lemmas.NonNumericLayerNeverCached(v, features, Str(IntToDecimal(n)));
    Lemmas.FilterByLayersAppend(v.loadedFeatures.GetOr([]), features, layerIds);
    assert forall i :: 0 <= i < |features| ==> features[i].layerId == Num(n as real);
    Lemmas.FilterByLayersKeepsAll(features, layerIds);
  }
}
