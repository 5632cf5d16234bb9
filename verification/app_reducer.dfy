/**
 * The `app` slice of the demo state and `appReducer`, which copies the state
 * with one or two fields replaced for the four actions it handles and returns
 * it unchanged for every other action.
 */
module AppReducer {
  import opened Wrappers
  import opened JsValues
  import opened Actions

  /** An entry of `LOADING_METHODS`. */
  datatype LoadingMethod = LoadingMethod(id: JsValue, labelText: JsValue)

  /**
   * The fields of the app slice the reducer reads or writes (`appName`,
   * `currentOption` and `featureFlags` are only carried and are left out).
   * An absent `loadingMethod` is what `find` returns for an unknown id.
   */
  datatype AppState = AppState(
    loaded: bool,
    loadingMethod: Option<LoadingMethod>,
    previousMethod: Option<LoadingMethod>,
    sampleMaps: seq<SampleMap>,
    isMapLoading: bool,
    error: Option<RemoteError>)

  /** Index of the first entry of `methods` whose id is `=== methodId`, or -1. */
  function FindMethodIndex(methods: seq<LoadingMethod>, methodId: JsValue): (k: int)
    ensures -1 <= k < |methods|
    ensures k == -1 <==> forall i :: 0 <= i < |methods| ==> !StrictEquals(methods[i].id, methodId)
    ensures k >= 0 ==> StrictEquals(methods[k].id, methodId)
                       && forall i :: 0 <= i < k ==> !StrictEquals(methods[i].id, methodId)
  {
    if methods == [] then -1
    else if StrictEquals(methods[0].id, methodId) then 0
    else
      var k := FindMethodIndex(methods[1..], methodId);
      if k == -1 then -1 else k + 1
  }

  /** `methods.find(({id}) => id === methodId)`. */
  function FindMethod(methods: seq<LoadingMethod>, methodId: JsValue): (r: Option<LoadingMethod>)
    ensures r.None? <==> forall i :: 0 <= i < |methods| ==> !StrictEquals(methods[i].id, methodId)
    ensures r.Some? ==> exists k :: (0 <= k < |methods| && r.value == methods[k]
                                     && StrictEquals(methods[k].id, methodId)
                                     && forall i :: 0 <= i < k ==> !StrictEquals(methods[i].id, methodId))
  {
    var k := FindMethodIndex(methods, methodId);
    if k == -1 then None else Some(methods[k])
  }

  /** `appReducer(state, action)`, with `LOADING_METHODS` passed as `methods`. */
  function AppReduce(s: AppState, a: Action, methods: seq<LoadingMethod>): (r: AppState)
    ensures a.Init? ==> r == s.(loaded := true)
    ensures a.SetLoadingMethod? ==>
      && r.previousMethod == s.loadingMethod
      && r.error.None?
      && r.loadingMethod == FindMethod(methods, a.methodId)
      && r == s.(previousMethod := r.previousMethod, loadingMethod := r.loadingMethod, error := None)
    ensures a.LoadMapSampleFile? ==> r == s.(sampleMaps := a.samples)
    ensures a.SetSampleLoadingStatus? ==> r == s.(isMapLoading := a.isMapLoading)
    ensures !(a.Init? || a.SetLoadingMethod? || a.LoadMapSampleFile? || a.SetSampleLoadingStatus?) ==> r == s
  {
    match a
    case Init => s.(loaded := true)
    case SetLoadingMethod(methodId) =>
      s.(previousMethod := s.loadingMethod, loadingMethod := FindMethod(methods, methodId), error := None)
    case LoadMapSampleFile(samples) => s.(sampleMaps := samples)
    case SetSampleLoadingStatus(isMapLoading) => s.(isMapLoading := isMapLoading)
    case _ => s
  }

  /**
   * Switching loading method twice remembers the method chosen first: after
   * `switchToLoadingMethod(m1)` and `switchToLoadingMethod(m2)` the previous
   * method is the one `m1` named, and no error is left.
   */
  lemma SwitchTwiceRemembersFirst(s: AppState, m1: JsValue, m2: JsValue, methods: seq<LoadingMethod>)
    ensures var first := SwitchToLoadingMethod(m1, s.sampleMaps)[0].action;
            var s1 := AppReduce(s, first, methods);
            var second := SwitchToLoadingMethod(m2, s1.sampleMaps)[0].action;
            var s2 := AppReduce(s1, second, methods);
            && s2.previousMethod == FindMethod(methods, m1)
            && s2.loadingMethod == FindMethod(methods, m2)
            && s2.error.None?
            && s2.sampleMaps == s.sampleMaps
  {
  }

  /**
   * Once the sample list has been stored, switching to the sample method no
   * longer asks for it again.
   */
  lemma SampleListLoadedOnce(s: AppState, samples: seq<SampleMap>, methods: seq<LoadingMethod>)
    requires |samples| > 0
    ensures var s1 := AppReduce(s, LoadMapSampleFile(samples), methods);
            SwitchToLoadingMethod(SampleMethod, s1.sampleMaps) == [Plain(SetLoadingMethod(SampleMethod))]
  {
  }
}
