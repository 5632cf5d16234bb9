/**
 * The demo app's actions: the plain action objects (one constructor per action creator
 * the core uses), the response check shared by the remote loaders, and the
 * loading-method switch thunk.
 */
module Actions {
  import opened Wrappers
  import opened JsValues
  import opened Features

  /** An entry of the sample-map gallery; only its id is used by the core. */
  datatype SampleMap = SampleMap(id: JsValue)

  /** The fields of an HTTP response object that `detectResponseError` reads. */
  datatype Response = Response(statusCode: Option<int>, body: JsValue, message: JsValue)

  /** The `message` of an error: a value taken from the response, or the response itself. */
  datatype ErrorMessage = Text(text: JsValue) | WholeResponse(response: Response)

  datatype RemoteError = RemoteError(status: int, message: ErrorMessage)

  /** The remote resources the core talks to (host `http://localhost:8000`). */
  datatype Endpoint =
    | AllPolygons                       // GET /polygons/
    | PolygonsOfLayer(layerId: JsValue) // GET /pgs_by_layer/?layer_id={layerId}
    | LayerCatalogue                    // GET /layers

  /**
   * An action object. Each action creator the core dispatches or handles
   * builds exactly one of these constructors with its arguments as payload; `SetFeatures` is the drawing
   * tool's draw-complete action and `Other` any action the core ignores.
   */
  datatype Action =
    | Init
    | SetLoadingMethod(methodId: JsValue)
    | LoadRemoteResourceError(error: RemoteError, url: Endpoint)
    | LoadMapSampleFile(samples: seq<SampleMap>)
    | SetSampleLoadingStatus(isMapLoading: bool)
    | SetEditableLayers(layerIds: seq<JsValue>)
    | SaveEditableToRemote
    | FetchEditableSuccess(editables: seq<Feature>, layerId: JsValue)
    | FetchLayersMetadataSuccess(metadata: seq<LayerMeta>)
    | UpdatePolygonDetails(polygonId: JsValue, title: JsValue, description: JsValue, layerId: JsValue)
    | DeletePolygon(polygonId: JsValue)
    | SetFeatures(features: seq<Feature>)
    | Other

  /**
   * `detectResponseError`: an error `{status, message}` exactly when the status
   * code is present, non-zero and outside [200, 300); the message is the first
   * truthy of the body and the response's message, else the response itself.
   */
  function DetectResponseError(r: Response): (e: Option<RemoteError>)
    ensures e.Some? <==> r.statusCode.Some? && r.statusCode.value != 0
                         && !(200 <= r.statusCode.value < 300)
    ensures e.Some? ==> e.value.status == r.statusCode.value
    ensures e.Some? && Truthy(r.body) ==> e.value.message == Text(r.body)
    ensures e.Some? && !Truthy(r.body) && Truthy(r.message) ==> e.value.message == Text(r.message)
    ensures e.Some? && !Truthy(r.body) && !Truthy(r.message) ==> e.value.message == WholeResponse(r)
  {
    if r.statusCode.Some? && r.statusCode.value != 0
       && (r.statusCode.value < 200 || r.statusCode.value >= 300)
    then
      var message :=
        if Truthy(r.body) then Text(r.body)
        else if Truthy(r.message) then Text(r.message)
        else WholeResponse(r);
      Some(RemoteError(r.statusCode.value, message))
    else
      None
  }

  /** A reported error never carries an empty or falsy text as its message. */
  lemma ErrorMessageNeverFalsy(r: Response)
    requires DetectResponseError(r).Some?
    ensures var m := DetectResponseError(r).value.message; m.Text? ==> Truthy(m.text)
  {
  }

  /** What a thunk dispatches: a plain action, or the sample-list loading thunk. */
  datatype Dispatch = Plain(action: Action) | LoadSampleConfigurations

  /** The id of the sample-gallery loading method (`LOADING_METHODS_NAMES.sample`). */
  const SampleMethod := Str("sample")

  /**
   * `switchToLoadingMethod(methodId)`: always sets the loading method; when that
   * method is the sample gallery and no sample maps are loaded yet, also starts
   * loading the sample list.
   */
  function SwitchToLoadingMethod(methodId: JsValue, sampleMaps: seq<SampleMap>): (ds: seq<Dispatch>)
    ensures 1 <= |ds| <= 2 && ds[0] == Plain(SetLoadingMethod(methodId))
    ensures |ds| == 2 <==> StrictEquals(methodId, SampleMethod) && |sampleMaps| == 0
    ensures |ds| == 2 ==> ds[1] == LoadSampleConfigurations
  {
    [Plain(SetLoadingMethod(methodId))]
    + (if StrictEquals(methodId, SampleMethod) && |sampleMaps| == 0 then [LoadSampleConfigurations] else [])
  }
}
