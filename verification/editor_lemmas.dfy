/**
 * Properties of the editor reducers, proved from `EditorSpec`: what the fetch
 * cache remembers, what the layer filter keeps, what an update does to a
 * matching feature, what a delete removes and lists, and what a repeated
 * draw-complete event does.
 */
module EditorLemmas {
  import opened Wrappers
  import opened JsValues
  import opened Features
  import A = Actions
  import opened EditorSpec

  // ----- FETCH_EDITABLE_SUCCESS -----

  /** Every fetched layer id stays a number, whatever the reducers do. */
  lemma StepKeepsLayersNumeric(v: EditorView, a: A.Action)
    requires a.SetFeatures? ==> |a.features| > 0
    requires LayersNumeric(v) && Step(v, a).Next?
    ensures LayersNumeric(Step(v, a).view)
  {
  }

  /** Fetching the same numeric layer twice: the second fetch changes nothing. */
  lemma FetchNumericLayerTwice(v: EditorView, first: seq<Feature>, second: seq<Feature>, n: real)
    ensures var v1 := FetchEditable(v, first, Num(n));
            FetchEditable(v1, second, Num(n)) == v1
  {
    var v1 := FetchEditable(v, first, Num(n));
    var layers := v1.loadedLayers.value;
    if IndexOf(v.loadedLayers.GetOr([]), Num(n)) == -1 {
      assert StrictEquals(layers[|layers| - 1], Num(n));
    }
  }

  /**
   * A layer id that is not a number (the text of a select box, or the absent
   * id of the all-polygons load) is never found among the fetched layers, which
   * all are numbers: every such fetch appends its features and one more layer.
   */
  lemma NonNumericLayerNeverCached(v: EditorView, editables: seq<Feature>, layerId: JsValue)
    requires LayersNumeric(v) && !IsNumber(layerId)
    ensures var v1 := FetchEditable(v, editables, layerId);
            && v1.loadedFeatures == Some(v.loadedFeatures.GetOr([]) + editables)
            && v1.loadedLayers == Some(v.loadedLayers.GetOr([]) + [ToNumber(layerId)])
            && LayersNumeric(v1)
  {
    var layers := v.loadedLayers.GetOr([]);
    assert forall i :: 0 <= i < |layers| ==> IsNumber(layers[i]);
    assert IndexOf(layers, layerId) == -1;
  }

  /**
   * Loading the layer with numeric id `n` twice through the load dialog, which
   * passes the text `String(n)`, records `n` twice as fetched and loads its
   * polygons twice.
   */
  lemma LayerTextFetchedTwiceDuplicates(v: EditorView, editables: seq<Feature>, n: int)
    requires LayersNumeric(v)
    ensures var text := Str(IntToDecimal(n));
            var v2 := FetchEditable(FetchEditable(v, editables, text), editables, text);
            && v2.loadedLayers == Some(v.loadedLayers.GetOr([]) + [Num(n as real), Num(n as real)])
            && v2.loadedFeatures == Some(v.loadedFeatures.GetOr([]) + editables + editables)
  {
    var text := Str(IntToDecimal(n));
    DecimalRoundTrip(n);
    NonNumericLayerNeverCached(v, editables, text);
    var v1 := FetchEditable(v, editables, text);
    NonNumericLayerNeverCached(v1, editables, text);
    assert v.loadedLayers.GetOr([]) + [Num(n as real)] + [Num(n as real)]
        == v.loadedLayers.GetOr([]) + [Num(n as real), Num(n as real)];
  }

  // ----- SET_EDITABLE_LAYERS -----

  /** The filter keeps exactly the features that belong to a selected layer. */
  lemma {:induction false} FilterByLayersMembers(fs: seq<Feature>, layerIds: seq<JsValue>)
    ensures forall f :: f in FilterByLayers(fs, layerIds) <==> f in fs && InLayers(f, layerIds)
  {
    if fs != [] {
      var init := fs[..|fs| - 1];
      FilterByLayersMembers(init, layerIds);
      assert fs == init + [fs[|fs| - 1]];
    }
  }

  /** The filter keeps the loaded order: filtering a concatenation concatenates the filtered parts. */
  lemma {:induction false} FilterByLayersAppend(xs: seq<Feature>, ys: seq<Feature>, layerIds: seq<JsValue>)
    ensures FilterByLayers(xs + ys, layerIds) == FilterByLayers(xs, layerIds) + FilterByLayers(ys, layerIds)
    decreases |ys|
  {
    if ys == [] {
      assert xs + ys == xs;
    } else {
      var init := ys[..|ys| - 1];
      FilterByLayersAppend(xs, init, layerIds);
      assert (xs + ys)[..|xs + ys| - 1] == xs + init;
    }
  }

  /** Features that all belong to selected layers pass the filter unchanged. */
  lemma {:induction false} FilterByLayersKeepsAll(fs: seq<Feature>, layerIds: seq<JsValue>)
    requires forall i :: 0 <= i < |fs| ==> InLayers(fs[i], layerIds)
    ensures FilterByLayers(fs, layerIds) == fs
  {
    if fs != [] {
      var init := fs[..|fs| - 1];
      var last := fs[|fs| - 1];
      forall i | 0 <= i < |init| ensures InLayers(init[i], layerIds) {
        assert init[i] == fs[i];
      }
      FilterByLayersKeepsAll(init, layerIds);
      assert InLayers(last, layerIds);
      assert FilterByLayers(fs, layerIds) == init + [last];
      assert init + [last] == fs;
    }
  }

  /** Features none of which belongs to a selected layer are all filtered out. */
  lemma {:induction false} FilterByLayersDropsAll(fs: seq<Feature>, layerIds: seq<JsValue>)
    requires forall i :: 0 <= i < |fs| ==> !InLayers(fs[i], layerIds)
    ensures FilterByLayers(fs, layerIds) == []
  {
    if fs != [] {
      var init := fs[..|fs| - 1];
      assert forall i :: 0 <= i < |init| ==> init[i] == fs[i];
      FilterByLayersDropsAll(init, layerIds);
    }
  }

  /** Selecting the same layers again gives the same active features. */
  lemma FilterByLayersIdempotent(fs: seq<Feature>, layerIds: seq<JsValue>)
    ensures FilterByLayers(FilterByLayers(fs, layerIds), layerIds) == FilterByLayers(fs, layerIds)
  {
    var r := FilterByLayers(fs, layerIds);
    FilterByLayersMembers(fs, layerIds);
    assert forall i :: 0 <= i < |r| ==> r[i] in r;
    FilterByLayersKeepsAll(r, layerIds);
  }

  /**
   * Fetching a new layer `n` whose polygons all belong to `n`, then selecting
   * layers that include `n`: the active features are the previously loaded
   * ones of the selected layers followed by all the fetched polygons.
   */
  lemma FetchThenSelectShowsFetched(v: EditorView, editables: seq<Feature>, n: real, layerIds: seq<JsValue>)
    requires IndexOf(v.loadedLayers.GetOr([]), Num(n)) == -1
    requires forall i :: 0 <= i < |editables| ==> editables[i].layerId == Num(n)
    requires IndexOf(layerIds, Num(n)) != -1
    ensures var r := SetEditableLayers(FetchEditable(v, editables, Num(n)), layerIds);
            r.Next? && r.view.features == FilterByLayers(v.loadedFeatures.GetOr([]), layerIds) + editables
  {
    FilterByLayersAppend(v.loadedFeatures.GetOr([]), editables, layerIds);
    FilterByLayersKeepsAll(editables, layerIds);
  }

  // ----- UPDATE_POLYGON_DETAILS -----

  /** Every matching feature touched, every other one kept: the update when nothing is spliced out. */
  function MapTouch(fs: seq<Feature>, d: Details): (r: seq<Feature>)
    ensures |r| == |fs|
    ensures forall k :: 0 <= k < |fs| ==> r[k] == if Matches(fs[k], d.polygonId) then Touch(fs[k], d) else fs[k]
  {
    if fs == [] then []
    else [if Matches(fs[0], d.polygonId) then Touch(fs[0], d) else fs[0]] + MapTouch(fs[1..], d)
  }

  /** The update loop passes over features that do not match. */
  lemma {:induction false} UpdateSkipsNonMatching(fs: seq<Feature>, i: nat, j: nat, selected: Option<Feature>,
                                                  modal: bool, d: Details, layers: Option<seq<JsValue>>)
    requires i <= j <= |fs|
    requires forall k :: i <= k < j ==> !Matches(fs[k], d.polygonId)
    ensures UpdateFrom(fs, i, selected, modal, d, layers) == UpdateFrom(fs, j, selected, modal, d, layers)
    decreases j - i
  {
    if i < j {
      UpdateSkipsNonMatching(fs, i + 1, j, selected, modal, d, layers);
    }
  }

  /** An update whose id matches no active feature changes nothing. */
  lemma UpdateWithoutMatchChangesNothing(v: EditorView, d: Details)
    requires forall k :: 0 <= k < |v.features| ==> !Matches(v.features[k], d.polygonId)
    ensures UpdatePolygonDetails(v, d) == v
  {
    UpdateSkipsNonMatching(v.features, 0, |v.features|, v.selectedFeature, v.newFeatureModal, d, v.loadedLayers);
  }

  /** A matching feature without custom properties closes the new-feature form. */
  predicate ClosesForm(fs: seq<Feature>, i: nat, d: Details) {
    exists k :: i <= k < |fs| && Matches(fs[k], d.polygonId) && fs[k].custom.None?
  }

  /** One step of the update loop when nothing is spliced out. */
  lemma UpdateFromStep(fs: seq<Feature>, i: nat, selected: Option<Feature>, modal: bool,
                       d: Details, layers: Option<seq<JsValue>>)
    requires i < |fs|
    requires layers.None? || LayerLoaded(layers.value, d.layerId)
    ensures var m := Matches(fs[i], d.polygonId);
            var head := if m then Touch(fs[i], d) else fs[i];
            UpdateFrom(fs, i, selected, modal, d, layers)
            == UpdateFrom(fs[i := head], i + 1,
                          if layers.None? || !m then selected else Some(head),
                          if m && fs[i].custom.None? then false else modal, d, layers)
  {
    if !Matches(fs[i], d.polygonId) {
      assert fs[i := fs[i]] == fs;
    }
  }

  /**
   * When nothing is fetched yet, or the new layer has been fetched, the loop
   * from `i` on touches every matching feature in place and removes none; with
   * nothing fetched the selection stays as it was.
   */
  lemma {:induction false} UpdateFromInPlace(fs: seq<Feature>, i: nat, selected: Option<Feature>, modal: bool,
                                             d: Details, layers: Option<seq<JsValue>>)
    requires i <= |fs|
    requires layers.None? || LayerLoaded(layers.value, d.layerId)
    ensures var r := UpdateFrom(fs, i, selected, modal, d, layers);
            && |r.features| == |fs|
            && (forall k :: 0 <= k < |fs| ==>
                  r.features[k] == if i <= k && Matches(fs[k], d.polygonId) then Touch(fs[k], d) else fs[k])
            && (layers.None? ==> r.selected == selected)
    decreases |fs| - i
  {
    if i < |fs| {
      var head := if Matches(fs[i], d.polygonId) then Touch(fs[i], d) else fs[i];
      var sel := if layers.None? || !Matches(fs[i], d.polygonId) then selected else Some(head);
      var modal' := if Matches(fs[i], d.polygonId) && fs[i].custom.None? then false else modal;
      UpdateFromStep(fs, i, selected, modal, d, layers);
      UpdateFromInPlace(fs[i := head], i + 1, sel, modal', d, layers);
    }
  }

  /** Under the same conditions the new-feature form closes exactly when a matching feature had no custom properties. */
  lemma {:induction false} UpdateFromClosesForm(fs: seq<Feature>, i: nat, selected: Option<Feature>, modal: bool,
                                                d: Details, layers: Option<seq<JsValue>>)
    requires i <= |fs|
    requires layers.None? || LayerLoaded(layers.value, d.layerId)
    ensures UpdateFrom(fs, i, selected, modal, d, layers).modal == (modal && !ClosesForm(fs, i, d))
    decreases |fs| - i
  {
    if i < |fs| {
      var head := if Matches(fs[i], d.polygonId) then Touch(fs[i], d) else fs[i];
      var fs' := fs[i := head];
      var sel := if layers.None? || !Matches(fs[i], d.polygonId) then selected else Some(head);
      var modal' := if Matches(fs[i], d.polygonId) && fs[i].custom.None? then false else modal;
      if Matches(fs[i], d.polygonId) {
        assert UpdateFrom(fs, i, selected, modal, d, layers) == UpdateFrom(fs', i + 1, sel, modal', d, layers);
      } else {
        assert fs' == fs;
      }
      UpdateFromClosesForm(fs', i + 1, sel, modal', d, layers);
      assert ClosesForm(fs', i + 1, d) == ClosesForm(fs, i + 1, d) by {
        assert forall k :: i + 1 <= k < |fs| ==> fs'[k] == fs[k];
      }
      if Matches(fs[i], d.polygonId) && fs[i].custom.None? {
        assert ClosesForm(fs, i, d);
      } else if ClosesForm(fs, i, d) {
        var k :| i <= k < |fs| && Matches(fs[k], d.polygonId) && fs[k].custom.None?;
        assert k != i;
      }
    }
  }

  /**
   * Before any layer is fetched an update touches every matching active
   * feature in place, keeps the others, and leaves the selection alone.
   */
  lemma UpdateBeforeAnyFetch(v: EditorView, d: Details)
    requires v.loadedLayers.None?
    ensures var v1 := UpdatePolygonDetails(v, d);
            && v1.features == MapTouch(v.features, d)
            && v1.selectedFeature == v.selectedFeature
            && v1.newFeatureModal == (v.newFeatureModal && !ClosesForm(v.features, 0, d))
            && v1 == v.(features := v1.features, newFeatureModal := v1.newFeatureModal)
  {
    UpdateFromInPlace(v.features, 0, v.selectedFeature, v.newFeatureModal, d, v.loadedLayers);
    UpdateFromClosesForm(v.features, 0, v.selectedFeature, v.newFeatureModal, d, v.loadedLayers);
  }

  /**
   * An update of the one active feature at index `k` with a matching id: its
   * title, description and layers are overwritten (see `Touch`); when layers
   * have been fetched and the new layer is not among them it leaves the active
   * features and the selection is cleared, when it is among them it becomes the
   * selection, and with nothing fetched the selection stays. The new-feature
   * form closes exactly when the feature had no custom properties.
   */
  lemma UpdateUniqueMatch(v: EditorView, d: Details, k: nat)
    requires k < |v.features| && Matches(v.features[k], d.polygonId)
    requires forall j :: 0 <= j < |v.features| && j != k ==> !Matches(v.features[j], d.polygonId)
    ensures var v1 := UpdatePolygonDetails(v, d);
            var g := Touch(v.features[k], d);
            && v1.newFeatureModal == (v.newFeatureModal && v.features[k].custom.Some?)
            && (v.loadedLayers.None? ==> v1.features == v.features[k := g] && v1.selectedFeature == v.selectedFeature)
            && (v.loadedLayers.Some? && LayerLoaded(v.loadedLayers.value, d.layerId) ==>
                  v1.features == v.features[k := g] && v1.selectedFeature == Some(g))
            && (v.loadedLayers.Some? && !LayerLoaded(v.loadedLayers.value, d.layerId) ==>
                  v1.features == v.features[..k] + v.features[k + 1..] && v1.selectedFeature.None?)
            && v1 == v.(features := v1.features, selectedFeature := v1.selectedFeature, newFeatureModal := v1.newFeatureModal)
  {
    var fs := v.features;
    var layers := v.loadedLayers;
    UpdateSkipsNonMatching(fs, 0, k, v.selectedFeature, v.newFeatureModal, d, layers);
    var g := Touch(fs[k], d);
    var modal' := if fs[k].custom.None? then false else v.newFeatureModal;
    if layers.Some? && !LayerLoaded(layers.value, d.layerId) {
      var fs' := fs[..k] + fs[k + 1..];
      if k + 1 <= |fs'| {
        forall m | k + 1 <= m < |fs'| ensures !Matches(fs'[m], d.polygonId) {
          assert fs'[m] == fs[m + 1];
        }
        UpdateSkipsNonMatching(fs', k + 1, |fs'|, None, modal', d, layers);
      }
    } else {
      var sel := if layers.None? then v.selectedFeature else Some(g);
      UpdateSkipsNonMatching(fs[k := g], k + 1, |fs|, sel, modal', d, layers);
    }
  }

  /**
   * Two adjacent active features with the same id, moved to a layer that is
   * not fetched: the first is spliced out, and the loop then steps past the
   * second, which stays active with its old details.
   */
  lemma UpdateSkipsFeatureAfterSplice(f: Feature, d: Details, layers: seq<JsValue>,
                                      selected: Option<Feature>, modal: bool)
    requires Matches(f, d.polygonId) && !LayerLoaded(layers, d.layerId)
    ensures UpdateFrom([f, f], 0, selected, modal, d, Some(layers)).features == [f]
  {
    assert [f, f][..0] + [f, f][1..] == [f];
  }

  // ----- DELETE_POLYGON -----

  /**
   * A delete removes exactly the first matching active feature: one fewer
   * feature, and the same multiset of features apart from that one.
   */
  lemma DeleteRemovesExactlyOne(v: EditorView, polygonId: JsValue, k: nat)
    requires k < |v.features| && Matches(v.features[k], polygonId)
    requires forall j :: 0 <= j < k ==> !Matches(v.features[j], polygonId)
    ensures var fs := DeletePolygon(v, polygonId).features;
            |fs| == |v.features| - 1 && multiset(fs) + multiset{v.features[k]} == multiset(v.features)
  {
    RemoveFirstAt(v.features, polygonId, k);
    assert v.features == v.features[..k] + [v.features[k]] + v.features[k + 1..];
  }

  /**
   * Deleting the same polygon twice: the second delete finds nothing left to
   * remove, yet the id is listed for deletion twice.
   */
  lemma RepeatedDeleteListsIdTwice(v: EditorView, polygonId: JsValue, k: nat)
    requires k < |v.features| && Matches(v.features[k], polygonId)
    requires forall j :: 0 <= j < |v.features| && j != k ==> !Matches(v.features[j], polygonId)
    ensures var v2 := DeletePolygon(DeletePolygon(v, polygonId), polygonId);
            && v2.features == v.features[..k] + v.features[k + 1..]
            && v2.deletedIds == Some(v.deletedIds.GetOr([]) + [polygonId, polygonId])
  {
    RemoveFirstAt(v.features, polygonId, k);
    var fs1 := v.features[..k] + v.features[k + 1..];
    forall j | 0 <= j < |fs1| ensures !Matches(fs1[j], polygonId) {
      if j < k {
        assert fs1[j] == v.features[j];
      } else {
        assert fs1[j] == v.features[j + 1];
      }
    }
    RemoveFirstNoMatch(fs1, polygonId);
    assert v.deletedIds.GetOr([]) + [polygonId] + [polygonId] == v.deletedIds.GetOr([]) + [polygonId, polygonId];
  }

  /**
   * A delete leaves the loaded features alone, so selecting layers again
   * brings every loaded feature of those layers back, the deleted one
   * included, while its id stays listed for deletion.
   */
  lemma DeletedFeatureReturnsOnReselect(v: EditorView, polygonId: JsValue, layerIds: seq<JsValue>, f: Feature)
    requires v.loadedFeatures.Some? && f in v.loadedFeatures.value && InLayers(f, layerIds)
    ensures var r := SetEditableLayers(DeletePolygon(v, polygonId), layerIds);
            && r.Next? && f in r.view.features
            && r.view.deletedIds.Some? && polygonId in r.view.deletedIds.value
  {
    FilterByLayersMembers(v.loadedFeatures.value, layerIds);
    var ids := v.deletedIds.GetOr([]) + [polygonId];
    assert ids[|ids| - 1] == polygonId;
  }

  // ----- SAVE_EDITABLE_TO_REMOTE -----

  /** The save action leaves the state as it is: the deleted ids are not cleared. */
  lemma SaveKeepsDeletedIds(v: EditorView)
    ensures Step(v, A.SaveEditableToRemote) == Next(v)
  {
  }

  // ----- SET_FEATURES -----

  /**
   * After a draw-complete event the newest drawn feature counts as loaded, so
   * the same event again changes nothing (for a feature id that is not NaN,
   * the one value not `===` itself).
   */
  lemma RecordDrawnTwiceSameAsOnce(v: EditorView, drawn: seq<Feature>)
    requires |drawn| > 0 && !drawn[|drawn| - 1].id.NaN?
    ensures FeatureLoaded(RecordDrawn(v, drawn).loadedFeatures, drawn)
    ensures RecordDrawn(RecordDrawn(v, drawn), drawn) == RecordDrawn(v, drawn)
  {
    var v1 := RecordDrawn(v, drawn);
    if !FeatureLoaded(v.loadedFeatures, drawn) {
      var loaded := v1.loadedFeatures.value;
      assert StrictEquals(loaded[|loaded| - 1].id, drawn[|drawn| - 1].id);
    }
  }
}
