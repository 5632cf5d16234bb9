/**
 * Corrected versions of two editor reducers whose code does not do what it
 * evidently means to, with the intended properties proved. `EditorSpec`
 * models the code as written; `EditorLemmas.LayerTextFetchedTwiceDuplicates`
 * and `EditorLemmas.UpdateSkipsFeatureAfterSplice` exhibit the discrepancies.
 */
module Findings {
  import opened Wrappers
  import opened JsValues
  import opened Features
  import opened EditorSpec

  // ----- FETCH_EDITABLE_SUCCESS compares the layer id as converted -----

  /** The fetch with the cache lookup on `Number(layerId)`, the value it records. */
  function FetchEditableByNumber(v: EditorView, editables: seq<Feature>, layerId: JsValue): EditorView {
    var loaded := v.loadedFeatures.GetOr([]);
    var layers := v.loadedLayers.GetOr([]);
    if IndexOf(layers, ToNumber(layerId)) == -1 then
      v.(loadedFeatures := Some(loaded + editables), loadedLayers := Some(layers + [ToNumber(layerId)]))
    else
      v.(loadedFeatures := Some(loaded), loadedLayers := Some(layers))
  }

  /** No layer id is recorded twice. */
  predicate DistinctLayers(v: EditorView) {
    v.loadedLayers.Some? ==>
      forall i, j :: 0 <= i < j < |v.loadedLayers.value| ==> !StrictEquals(v.loadedLayers.value[i], v.loadedLayers.value[j])
  }

  /** For numeric layer ids the corrected fetch is the fetch as written. */
  lemma ByNumberAgreesOnNumbers(v: EditorView, editables: seq<Feature>, layerId: JsValue)
    requires IsNumber(layerId)
    ensures FetchEditableByNumber(v, editables, layerId) == FetchEditable(v, editables, layerId)
  {
  }

  /** Loading the same layer again, by number or by text, changes nothing (unless its number is NaN). */
  lemma ByNumberFetchTwice(v: EditorView, first: seq<Feature>, second: seq<Feature>, layerId: JsValue)
    requires !ToNumber(layerId).NaN?
    ensures var v1 := FetchEditableByNumber(v, first, layerId);
            FetchEditableByNumber(v1, second, layerId) == v1
  {
    var v1 := FetchEditableByNumber(v, first, layerId);
    var layers := v1.loadedLayers.value;
    if IndexOf(v.loadedLayers.GetOr([]), ToNumber(layerId)) == -1 {
      assert StrictEquals(layers[|layers| - 1], ToNumber(layerId));
    }
  }

  /** The corrected fetch never records a layer twice. */
  lemma ByNumberKeepsLayersDistinct(v: EditorView, editables: seq<Feature>, layerId: JsValue)
    requires DistinctLayers(v)
    ensures DistinctLayers(FetchEditableByNumber(v, editables, layerId))
  {
    var layers := v.loadedLayers.GetOr([]);
    var n := ToNumber(layerId);
    if IndexOf(layers, n) == -1 {
      var layers' := layers + [n];
      forall i, j | 0 <= i < j < |layers'| ensures !StrictEquals(layers'[i], layers'[j]) {
        if j == |layers| {
          assert layers'[i] == layers[i];
        }
      }
    }
  }

  /** Loading layer `n` twice through the load dialog now loads its polygons once. */
  lemma LayerTextFetchedTwiceOnce(v: EditorView, editables: seq<Feature>, n: int)
    requires DistinctLayers(v)
    ensures var text := Str(IntToDecimal(n));
            var v1 := FetchEditableByNumber(v, editables, text);
            && FetchEditableByNumber(v1, editables, text) == v1
            && DistinctLayers(v1)
  {
    var text := Str(IntToDecimal(n));
    DecimalRoundTrip(n);
    ByNumberFetchTwice(v, editables, editables, text);
    ByNumberKeepsLayersDistinct(v, editables, text);
  }

  // ----- UPDATE_POLYGON_DETAILS looks at the feature that moves into a spliced slot -----

  /** The update loop that stays on the same index after a splice. */
  function UpdateFromFixed(fs: seq<Feature>, i: nat, selected: Option<Feature>, modal: bool,
                           d: Details, layers: Option<seq<JsValue>>): UpdatePass
    decreases |fs| - i
  {
    if i >= |fs| then UpdatePass(fs, selected, modal)
    else if !Matches(fs[i], d.polygonId) then UpdateFromFixed(fs, i + 1, selected, modal, d, layers)
    else
      var g := Touch(fs[i], d);
      var modal' := if fs[i].custom.None? then false else modal;
      if layers.None? then UpdateFromFixed(fs[i := g], i + 1, selected, modal', d, layers)
      else if !LayerLoaded(layers.value, d.layerId) then UpdateFromFixed(fs[..i] + fs[i + 1..], i, None, modal', d, layers)
      else UpdateFromFixed(fs[i := g], i + 1, Some(g), modal', d, layers)
  }

  /** The features whose id does not match, in order. */
  function Unmatched(fs: seq<Feature>, polygonId: JsValue): (r: seq<Feature>)
    ensures |r| <= |fs|
    ensures forall f :: f in r <==> f in fs && !Matches(f, polygonId)
  {
    if fs == [] then []
    else (if Matches(fs[0], polygonId) then [] else [fs[0]]) + Unmatched(fs[1..], polygonId)
  }

  /** `Unmatched` of a suffix, one feature at a time. */
  lemma UnmatchedFrom(fs: seq<Feature>, i: nat, polygonId: JsValue)
    requires i < |fs|
    ensures Unmatched(fs[i..], polygonId)
            == (if Matches(fs[i], polygonId) then [] else [fs[i]]) + Unmatched(fs[i + 1..], polygonId)
  {
    assert fs[i..][1..] == fs[i + 1..];
  }

  /**
   * Moving polygons to a layer that is not fetched removes every active
   * feature with a matching id and keeps the others in order.
   */
  lemma {:induction false} FixedRemovesEveryMatch(fs: seq<Feature>, i: nat, selected: Option<Feature>, modal: bool,
                                                  d: Details, layers: seq<JsValue>)
    requires i <= |fs| && !LayerLoaded(layers, d.layerId)
    ensures UpdateFromFixed(fs, i, selected, modal, d, Some(layers)).features == fs[..i] + Unmatched(fs[i..], d.polygonId)
    decreases |fs| - i
  {
    if i == |fs| {
      assert fs[..i] == fs;
    } else {
      UnmatchedFrom(fs, i, d.polygonId);
      var rest := Unmatched(fs[i + 1..], d.polygonId);
      var modal' := if fs[i].custom.None? then false else modal;
      if !Matches(fs[i], d.polygonId) {
        FixedRemovesEveryMatch(fs, i + 1, selected, modal, d, layers);
        assert fs[..i + 1] + rest == fs[..i] + ([fs[i]] + rest);
      } else {
        var fs' := fs[..i] + fs[i + 1..];
        assert UpdateFromFixed(fs, i, selected, modal, d, Some(layers))
            == UpdateFromFixed(fs', i, None, modal', d, Some(layers));
        FixedRemovesEveryMatch(fs', i, None, modal', d, layers);
        assert fs'[..i] == fs[..i];
        assert fs'[i..] == fs[i + 1..];
        assert [] + rest == rest;
      }
    }
  }

  /** Some feature from index `i` on has a matching id. */
  predicate MatchFrom(fs: seq<Feature>, i: nat, polygonId: JsValue) {
    exists k :: i <= k < |fs| && Matches(fs[k], polygonId)
  }

  /** Under the same conditions the selection is cleared exactly when some feature matched. */
  lemma {:induction false} FixedClearsSelection(fs: seq<Feature>, i: nat, selected: Option<Feature>, modal: bool,
                                                d: Details, layers: seq<JsValue>)
    requires i <= |fs| && !LayerLoaded(layers, d.layerId)
    ensures UpdateFromFixed(fs, i, selected, modal, d, Some(layers)).selected
            == if MatchFrom(fs, i, d.polygonId) then None else selected
    decreases |fs| - i
  {
    if i < |fs| {
      var modal' := if fs[i].custom.None? then false else modal;
      if !Matches(fs[i], d.polygonId) {
        FixedClearsSelection(fs, i + 1, selected, modal, d, layers);
        if MatchFrom(fs, i, d.polygonId) {
          var k :| i <= k < |fs| && Matches(fs[k], d.polygonId);
          assert k != i;
        }
      } else {
        var fs' := fs[..i] + fs[i + 1..];
        FixedClearsSelection(fs', i, None, modal', d, layers);
        assert MatchFrom(fs, i, d.polygonId);
      }
    }
  }

  /** Where nothing is spliced out, the corrected loop is the loop as written. */
  lemma {:induction false} FixedAgreesWithoutSplice(fs: seq<Feature>, i: nat, selected: Option<Feature>, modal: bool,
                                                    d: Details, layers: Option<seq<JsValue>>)
    requires layers.None? || LayerLoaded(layers.value, d.layerId)
    ensures UpdateFromFixed(fs, i, selected, modal, d, layers) == UpdateFrom(fs, i, selected, modal, d, layers)
    decreases |fs| - i
  {
    if i < |fs| {
      var g := Touch(fs[i], d);
      var modal' := if fs[i].custom.None? then false else modal;
      if !Matches(fs[i], d.polygonId) {
        FixedAgreesWithoutSplice(fs, i + 1, selected, modal, d, layers);
      } else if layers.None? {
        FixedAgreesWithoutSplice(fs[i := g], i + 1, selected, modal', d, layers);
      } else {
        FixedAgreesWithoutSplice(fs[i := g], i + 1, Some(g), modal', d, layers);
      }
    }
  }

  /** The two adjacent features with the same id are both removed by the corrected loop. */
  lemma FixedRemovesAdjacentDuplicates(f: Feature, d: Details, layers: seq<JsValue>,
                                       selected: Option<Feature>, modal: bool)
    requires Matches(f, d.polygonId) && !LayerLoaded(layers, d.layerId)
    ensures UpdateFromFixed([f, f], 0, selected, modal, d, Some(layers)).features == []
  {
    FixedRemovesEveryMatch([f, f], 0, selected, modal, d, layers);
    assert [f, f][0..] == [f, f];
  }
}
