/**
 * `saveEditableToRemote`: the requests the save thunk issues for the active
 * features and the deleted ids, and when it dispatches the save action. The
 * network is left out: each request's outcome (resolved or rejected) is an
 * input.
 */
module Sync {
  import opened Wrappers
  import opened JsValues
  import opened Features
  import A = Actions
  import Spec = EditorSpec

  /**
   * A request to the persistence service (host `http://localhost:8000`).
   * Geometries are sent as JSON text; the model carries the geometry itself.
   */
  datatype Request =
    | Update(id: JsValue, title: JsValue, description: JsValue, geom: Geometry, layerId: JsValue)   // POST /polygon/update
    | Create(title: JsValue, description: JsValue, geojson: Geometry, layerId: JsValue)             // POST /polygon/create
    | Delete(id: JsValue)                                                                           // GET /polygon/delete/{id}

  /**
   * The request for one described feature: an update of the stored polygon
   * when its id is a whole number (`Math.round(id) === id`), a creation
   * otherwise; the texts and layer come from its custom properties.
   */
  function RequestFor(f: Feature): (r: Request)
    requires f.custom.Some?
    ensures r.Update? <==> IsWholeNumber(f.id)
    ensures r.Update? ==> r == Update(f.id, f.custom.value.title, f.custom.value.description, f.geometry, f.custom.value.layerId)
    ensures r.Create? ==> r == Create(f.custom.value.title, f.custom.value.description, f.geometry, f.custom.value.layerId)
  {
    MathRoundFixedIffWhole(f.id);
    var c := f.custom.value;
    if StrictEquals(MathRound(f.id), f.id) then Update(f.id, c.title, c.description, f.geometry, c.layerId)
    else Create(c.title, c.description, f.geometry, c.layerId)
  }

  /** Index of the first feature without custom properties (reading its title throws), or `|fs|`. */
  function FirstUndescribed(fs: seq<Feature>): (k: nat)
    ensures k <= |fs|
    ensures forall j :: 0 <= j < k ==> fs[j].custom.Some?
    ensures k < |fs| ==> fs[k].custom.None?
  {
    if fs == [] then 0
    else if fs[0].custom.None? then 0
    else 1 + FirstUndescribed(fs[1..])
  }

  /** One request per feature, in order. */
  function FeatureRequests(fs: seq<Feature>): (rs: seq<Request>)
    requires forall j :: 0 <= j < |fs| ==> fs[j].custom.Some?
    ensures |rs| == |fs|
    ensures forall j :: 0 <= j < |fs| ==> rs[j] == RequestFor(fs[j])
  {
    if fs == [] then [] else FeatureRequests(fs[..|fs| - 1]) + [RequestFor(fs[|fs| - 1])]
  }

  /** One delete per listed id, in order; none when the list is absent. */
  function DeleteRequests(deletedIds: Option<seq<JsValue>>): (rs: seq<Request>)
    ensures |rs| == |deletedIds.GetOr([])|
    ensures forall j :: 0 <= j < |rs| ==> rs[j] == Delete(deletedIds.value[j])
  {
    if deletedIds.None? then [] else seq(|deletedIds.value|, j requires 0 <= j < |deletedIds.value| => Delete(deletedIds.value[j]))
  }

  /** The requests issued, and whether the thunk threw on an undescribed feature before reaching `Promise.all`. */
  datatype SavePlan = SavePlan(requests: seq<Request>, threw: bool)

  /**
   * The save plan: one request per active feature in order, then one delete per
   * deleted id in order; a feature without custom properties makes the thunk
   * throw, after the requests for the features before it have gone out.
   */
  function Plan(features: seq<Feature>, deletedIds: Option<seq<JsValue>>): (p: SavePlan)
    ensures p.threw <==> exists i :: 0 <= i < |features| && features[i].custom.None?
    ensures !p.threw ==> |p.requests| == |features| + |deletedIds.GetOr([])|
    ensures !p.threw ==> forall i :: 0 <= i < |features| ==> p.requests[i] == RequestFor(features[i])
    ensures !p.threw ==> forall j :: 0 <= j < |deletedIds.GetOr([])| ==> p.requests[|features| + j] == Delete(deletedIds.value[j])
    ensures p.threw ==> |p.requests| < |features| && features[|p.requests|].custom.None?
                        && forall i :: 0 <= i < |p.requests| ==> features[i].custom.Some? && p.requests[i] == RequestFor(features[i])
  {
    var k := FirstUndescribed(features);
    var issued := FeatureRequests(features[..k]);
    if k < |features| then SavePlan(issued, true)
    else
      assert features[..k] == features;
      SavePlan(issued + DeleteRequests(deletedIds), false)
  }

  /**
   * `saveEditableToRemote` run against the current active features and deleted
   * ids; `resolves(i)` is whether the i-th request issued resolves. The save
   * action is dispatched once when the plan completed and every request
   * resolved, and never otherwise.
   */
  method SaveEditableToRemote(features: seq<Feature>, deletedIds: Option<seq<JsValue>>, resolves: nat -> bool)
    returns (requests: seq<Request>, threw: bool, dispatched: seq<A.Action>)
    ensures Plan(features, deletedIds) == SavePlan(requests, threw)
    ensures dispatched == if !threw && forall i :: 0 <= i < |requests| ==> resolves(i) then [A.SaveEditableToRemote] else []
  {
    requests := [];
    dispatched := [];
    // save features
    var i := 0;
    while i < |features|
      invariant 0 <= i <= |features|
      invariant forall j :: 0 <= j < i ==> features[j].custom.Some?
      invariant requests == FeatureRequests(features[..i])
    {
      if features[i].custom.None? {
        // reading `properties.custom.title` of this feature throws
        assert FirstUndescribed(features) == i;
        return requests, true, [];
      }
      assert features[..i + 1][..i] == features[..i];
      requests := requests + [RequestFor(features[i])];
      i := i + 1;
    }
    assert features[..i] == features;
    ghost var featureRequests := requests;
    // delete features
    if deletedIds.Some? {
      var ids := deletedIds.value;
      var j := 0;
      while j < |ids|
        invariant 0 <= j <= |ids|
        invariant |requests| == |features| + j
        invariant requests[..|features|] == featureRequests
        invariant forall m :: 0 <= m < j ==> requests[|features| + m] == Delete(ids[m])
      {
        requests := requests + [Delete(ids[j])];
        j := j + 1;
      }
    }
    threw := false;
    assert requests == featureRequests + DeleteRequests(deletedIds);
    if forall m :: 0 <= m < |requests| ==> resolves(m) {
      dispatched := [A.SaveEditableToRemote];
    }
  }

  /**
   * The example save: a stored polygon with id 4, a new one whose temporary id
   * is 2.33, and the deleted id 9 give an update, a creation and a delete, in
   * that order.
   */
  lemma SaveExample(stored: Feature, drawn: Feature)
    requires stored.id == Num(4.0) && stored.custom.Some?
    requires drawn.id == Num(2.33) && drawn.custom.Some?
    ensures var p := Plan([stored, drawn], Some([Num(9.0)]));
            && !p.threw && |p.requests| == 3
            && p.requests[0].Update? && p.requests[0].id == Num(4.0)
            && p.requests[1].Create?
            && p.requests[2] == Delete(Num(9.0))
  {
    assert (2.33 as real).Floor == 2;
    assert IsWholeNumber(Num(4.0));
    assert !IsWholeNumber(Num(2.33));
  }

  /**
   * A polygon drawn in this session and then described through the form is
   * saved as a creation carrying the form's texts and layer, as long as its
   * temporary id is not a whole number.
   */
  lemma DescribedDrawnPolygonIsCreated(f: Feature, d: Spec.Details)
    requires f.custom.None? && !IsWholeNumber(f.id)
    ensures RequestFor(Spec.Touch(f, d)) == Create(d.title, d.description, f.geometry, d.layerId)
  {
  }

  /** A stored polygon edited through the form is saved as an update of its row with the new details. */
  lemma EditedStoredPolygonIsUpdated(f: Feature, d: Spec.Details)
    requires f.custom.Some? && IsWholeNumber(f.id)
    ensures RequestFor(Spec.Touch(f, d)) == Update(f.id, d.title, d.description, f.geometry, d.layerId)
  {
  }

  /**
   * After a delete, a save that does not throw ends with the delete request
   * for that id; since the save action leaves the deleted ids in place, the
   * next save issues it again.
   */
  lemma SaveAfterDeleteEndsWithDelete(v: Spec.EditorView, polygonId: JsValue)
    ensures var v1 := Spec.DeletePolygon(v, polygonId);
            var p := Plan(v1.features, v1.deletedIds);
            && (!p.threw ==> |p.requests| > 0 && p.requests[|p.requests| - 1] == Delete(polygonId))
            && Spec.Step(v1, A.SaveEditableToRemote) == Spec.Next(v1)
  {
    var v1 := Spec.DeletePolygon(v, polygonId);
    var ids := v1.deletedIds.value;
    assert ids[|ids| - 1] == polygonId;
  }
}
