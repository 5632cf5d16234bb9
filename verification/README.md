# Editable polygons of the kepler.gl demo app, in Dafny

This project models the editable-polygon engine of the kepler.gl demo app.
Users load polygons from a persistence service, layer by layer. They pick the
layers whose polygons are active for editing, draw new polygons, and edit
their title, description and layer. They delete polygons, and save everything
back.

Two parts of the app are modelled:

- **The editor reducers** (`examples/demo-app/src/reducers/index.js`). They
  handle these actions:
  - `FETCH_EDITABLE_SUCCESS`, `SET_EDITABLE_LAYERS`, `UPDATE_POLYGON_DETAILS`,
    `DELETE_POLYGON`, `SAVE_EDITABLE_TO_REMOTE` and
    `FETCH_LAYERS_METADATA_SUCCESS`;
  - the draw-complete (`SET_FEATURES`) pre-step of `composedReducer`;
  - the two searches `checkExistingFeature` and `checkFeatureLoaded`;
  - `appReducer`.

  The demo's updaters change `visState` and `visState.editor` in place, so the
  editor state is the class `EditorState.VisState`. Its fields are
  `loadedFeatures`, `loadedLayers`, `features` (the active features),
  `selectedFeature`, `newFeatureModal`, `deletedIds` and `customLayers`. Each
  of its methods mirrors the updater's loops and splices. Each is proved to
  produce the state described by a pure function of `EditorSpec`. The
  properties of the editor are proved from those functions in `EditorLemmas`.
- **The persistence side** (`examples/demo-app/src/actions.js`):
  - `Sync`: the requests `saveEditableToRemote` issues, and its
    all-requests-resolve rule;
  - `Loaders`: the row-to-feature loops of `loadEditableData` and
    `loadEditableDataLayer`;
  - `Actions`: `detectResponseError`, `switchToLoadingMethod`, and the action
    creators the core dispatches or handles. Each of these builds one
    constructor of `Actions.Action`.

Ids and layer ids are JavaScript values (`JsValues.JsValue`). The source
compares them in three ways, and the model keeps each one apart:
- `===` and `indexOf`;
- `==`, which converts a string compared with a number;
- `Number(...)`.

This is what makes the load dialog's text layer ids and the editing form's
text polygon ids behave as they do.

Some behaviours of the code differ from what a reader might expect, and the
model keeps them:
- `deletedIds` is a list, not a set. Deleting the same id twice lists it twice.
  The save action does not clear it, so every later save issues those deletes
  again.
- A delete removes the feature from the active features only, not from
  `loadedFeatures`. Selecting layers again brings it back.
- The update checks the new layer against the layers fetched so far
  (`loadedLayers`), not against the selected layers.
- The updaters change the state in place instead of building a new state.
- No reducer here records a failed fetch: `appReducer` does not handle
  `LOAD_REMOTE_RESOURCE_ERROR`.

## Model

| member | source | states |
|---|---|---|
| JsValues.ToNumber | examples/demo-app/src/reducers/index.js:208 | `Number(v)` is always a number (possibly NaN) and leaves numbers unchanged |
| JsValues.IndexOf | examples/demo-app/src/reducers/index.js:204 | `indexOf` gives the first index whose element is `===` the value, or -1 exactly when none is |
| JsValues.LooseMatchOfIdText | examples/demo-app/src/reducers/index.js:235 | a stored id `n` and its text `String(n)` are equal under `==` but not under `===` |
| JsValues.MathRound | examples/demo-app/src/actions.js:267 | `Math.round(v)` is NaN exactly when `Number(v)` is; otherwise it is the whole number `n` with `n - 0.5 <= Number(v) < n + 0.5`, so halves round up |
| JsValues.StringToNumber | examples/demo-app/src/reducers/index.js:208 | `Number` of a text: the empty text is 0, a text of digits is its decimal value, a minus sign before digits negates it, and a text with any character other than digits, a dot and a leading sign is NaN |
| JsValues.MathRoundFixedIffWhole | examples/demo-app/src/actions.js:267 | `Math.round(id) === id` holds exactly for whole numbers |
| Actions.DetectResponseError | examples/demo-app/src/actions.js:135-142 | an error exactly when the status code is present, non-zero and outside [200, 300); status is the code; message is the body, else the response's message, else the response |
| Actions.ErrorMessageNeverFalsy | examples/demo-app/src/actions.js:139 | a reported message taken from the response is never falsy |
| Actions.SwitchToLoadingMethod | examples/demo-app/src/actions.js:82-89 | always dispatches `setLoadingMethod(method)` first; also starts loading the sample list exactly when the method is the sample method and no sample maps are loaded |
| AppReducer.FindMethodIndex | examples/demo-app/src/reducers/index.js:83 | `find` by `===` on the id: the first matching entry, or none exactly when no entry matches |
| AppReducer.FindMethod | examples/demo-app/src/reducers/index.js:83 | `find` gives nothing exactly when no entry's id is `===` the wanted id; otherwise it gives the first such entry |
| AppReducer.AppReduce | examples/demo-app/src/reducers/index.js:75-94 | INIT sets `loaded`; SET_LOADING_METHOD moves the method to `previousMethod`, sets the method that `find` gives (the first match, or none) and clears the error; the sample actions set their field; every other action leaves the state alone |
| AppReducer.SwitchTwiceRemembersFirst | examples/demo-app/src/reducers/index.js:80-85 | after switching to `m1` and then `m2`, the previous method is `m1`'s, the current one `m2`'s, and no error is left |
| AppReducer.SampleListLoadedOnce | examples/demo-app/src/actions.js:82-89 | once sample maps are stored, switching to the sample method no longer loads the list |
| EditorSpec.Touch | examples/demo-app/src/reducers/index.js:237-248 | an updated feature keeps its id and geometry; custom title, description and layer and `properties.layerId` take the new values; the top-level layer changes only when the feature had no custom properties |
| EditorSpec.RecordDrawn | examples/demo-app/src/reducers/index.js:330-344 | a draw-complete event whose newest feature is already loaded changes nothing; otherwise it opens the new-feature form and appends that feature after the loaded features (creating the list), keeping everything else |
| EditorSpec.RemoveFirstAt | examples/demo-app/src/reducers/index.js:274-279 | the delete loop removes exactly the first matching feature and keeps the rest in order |
| EditorSpec.RemoveFirstNoMatch | examples/demo-app/src/reducers/index.js:274-279 | with no matching feature the delete loop removes nothing |
| EditorState.CheckExistingFeature | examples/demo-app/src/reducers/index.js:171-178 | true exactly when some feature's id is `===` the given feature's id |
| EditorState.CheckFeatureLoaded | examples/demo-app/src/reducers/index.js:290-303 | false when nothing was loaded; otherwise true exactly when a loaded feature's id is `===` the newest drawn feature's id |
| EditorState.VisState.FetchLayersMetadataSuccess | examples/demo-app/src/reducers/index.js:186-191 | the layer catalogue becomes the metadata; nothing else changes |
| EditorState.VisState.FetchEditableSuccess | examples/demo-app/src/reducers/index.js:192-211 | both lists start empty when absent; when `layerId` is not `===` a fetched layer, the features are appended without de-duplication and `Number(layerId)` is recorded; otherwise both stay; the active features are untouched |
| EditorState.VisState.SetEditableLayers | examples/demo-app/src/reducers/index.js:214-228 | the active features become exactly the loaded features of the given layers, in loaded order; throws, changing nothing, when nothing was loaded |
| EditorState.VisState.UpdatePolygonDetails | examples/demo-app/src/reducers/index.js:229-265 | the loop's effect on active features, selection and form flag is `EditorSpec.UpdateFrom`; loaded features, fetched layers, deleted ids and catalogue stay |
| EditorState.VisState.DeletePolygon | examples/demo-app/src/reducers/index.js:266-287 | removes the first matching active feature, clears the selection, appends the id to the deleted ids (creating the list) and leaves the loaded features |
| EditorState.VisState.Reduce | examples/demo-app/src/reducers/index.js:305-350 | one action through `composedReducer`: the draw-complete pre-step, then the demo's updater; the new state is `EditorSpec.Step` of the old one, or unchanged when the updater throws |
| EditorLemmas.StepKeepsLayersNumeric | examples/demo-app/src/reducers/index.js:208 | every recorded fetched layer stays a number, whatever action runs |
| EditorLemmas.FetchNumericLayerTwice | examples/demo-app/src/reducers/index.js:204-209 | fetching the same numeric layer twice: the second fetch changes nothing |
| EditorLemmas.NonNumericLayerNeverCached | examples/demo-app/src/reducers/index.js:204-208 | a non-number layer id never hits the cache: every such fetch appends its features and one more layer |
| EditorLemmas.LayerTextFetchedTwiceDuplicates | examples/demo-app/src/reducers/index.js:204-208 | loading layer `n` twice by its text records `n` twice and loads its polygons twice |
| EditorLemmas.FilterByLayersMembers | examples/demo-app/src/reducers/index.js:221-225 | a feature is active after the filter exactly when it is loaded and its layer is selected |
| EditorLemmas.FilterByLayersAppend | examples/demo-app/src/reducers/index.js:221-225 | the filter keeps loaded order: filtering a concatenation concatenates the filtered parts |
| EditorLemmas.FilterByLayersKeepsAll | examples/demo-app/src/reducers/index.js:221-225 | features all of selected layers pass unchanged |
| EditorLemmas.FilterByLayersDropsAll | examples/demo-app/src/reducers/index.js:221-225 | features none of which is of a selected layer are all dropped |
| EditorLemmas.FilterByLayersIdempotent | examples/demo-app/src/reducers/index.js:214-228 | filtering again by the same layers changes nothing |
| EditorLemmas.FetchThenSelectShowsFetched | examples/demo-app/src/reducers/index.js:192-228 | after fetching a new layer and selecting it, the active features are the old ones of the selected layers followed by all fetched ones |
| EditorLemmas.MapTouch | examples/demo-app/src/reducers/index.js:234-248 | the in-place update: same length, each matching feature touched, each other one kept |
| EditorLemmas.UpdateSkipsNonMatching | examples/demo-app/src/reducers/index.js:234-235 | the update loop passes over non-matching features without effect |
| EditorLemmas.UpdateWithoutMatchChangesNothing | examples/demo-app/src/reducers/index.js:229-265 | an update matching no active feature leaves the state unchanged |
| EditorLemmas.UpdateFromInPlace | examples/demo-app/src/reducers/index.js:234-259 | when nothing was fetched, or the new layer was, every match is touched in place and nothing removed; with nothing fetched the selection stays |
| EditorLemmas.UpdateFromClosesForm | examples/demo-app/src/reducers/index.js:237-242 | under the same conditions the new-feature form closes exactly when a matching feature had no custom properties |
| EditorLemmas.UpdateBeforeAnyFetch | examples/demo-app/src/reducers/index.js:250-251 | before any fetch, an update touches all matches in place and keeps the selection; nothing else changes |
| EditorLemmas.UpdateUniqueMatch | examples/demo-app/src/reducers/index.js:229-265 | for one matching feature: it is touched; it is spliced out and the selection cleared when fetched layers lack the new layer; otherwise it becomes the selection (or the selection stays, with nothing fetched); the form closes exactly when it had no custom properties |
| EditorLemmas.UpdateSkipsFeatureAfterSplice | examples/demo-app/src/reducers/index.js:252-253 | two adjacent features with the same id moved to an unfetched layer: only the first is removed |
| EditorLemmas.DeleteRemovesExactlyOne | examples/demo-app/src/reducers/index.js:274-279 | a delete removes one feature, the first match; the multiset of the others is kept |
| EditorLemmas.RepeatedDeleteListsIdTwice | examples/demo-app/src/reducers/index.js:280-284 | deleting the same polygon twice removes it once but lists its id twice |
| EditorLemmas.DeletedFeatureReturnsOnReselect | examples/demo-app/src/reducers/index.js:266-287 | after a delete, selecting layers again makes every loaded feature of them active again, the deleted one included, while its id stays listed |
| EditorLemmas.SaveKeepsDeletedIds | examples/demo-app/src/reducers/index.js:182-185 | the save action leaves the state, deleted ids included, unchanged |
| EditorLemmas.RecordDrawnTwiceSameAsOnce | examples/demo-app/src/reducers/index.js:330-344 | after a draw-complete event the newest drawn feature counts as loaded, and the same event again changes nothing |
| Sync.RequestFor | examples/demo-app/src/actions.js:267-288 | an update (id, title, description, geometry, layer) exactly when the id is a whole number, else a creation without id |
| Sync.FirstUndescribed | examples/demo-app/src/actions.js:272-286 | the first feature whose custom properties are missing, the point where the save thunk throws |
| Sync.FeatureRequests | examples/demo-app/src/actions.js:265-291 | one request per feature, in order |
| Sync.DeleteRequests | examples/demo-app/src/actions.js:293-300 | one delete per listed id, in order; none when the list is absent |
| Sync.Plan | examples/demo-app/src/actions.js:265-300 | without a throw: one request per feature, then one delete per id, so the feature count plus the id count; it throws exactly when a feature has no custom properties, after the requests for the features before it |
| Sync.SaveEditableToRemote | examples/demo-app/src/actions.js:261-311 | issues the plan's requests in order; dispatches the save action once when no throw occurred and every request resolved, and never otherwise |
| Sync.SaveExample | examples/demo-app/src/actions.js:265-300 | ids 4 and 2.33 with deleted id 9 give an update of 4, a creation and a delete of 9 |
| Sync.DescribedDrawnPolygonIsCreated | examples/demo-app/src/actions.js:279-288 | a drawn polygon described through the form is saved as a creation with the form's texts and layer |
| Sync.EditedStoredPolygonIsUpdated | examples/demo-app/src/actions.js:267-278 | a stored polygon edited through the form is saved as an update of its row with the new details |
| Sync.SaveAfterDeleteEndsWithDelete | examples/demo-app/src/actions.js:293-300 | after a delete, the save ends with the delete of that id, and saving keeps it listed |
| Loaders.PolygonsToFeatures | examples/demo-app/src/actions.js:323-334 | one feature per row, in order: the row's id and parsed geometry, the row as custom properties, no layer |
| Loaders.LayerPolygonsToFeatures | examples/demo-app/src/actions.js:373-385 | the same, with the row's `layer_id` as the top-level layer |
| Loaders.LoadEditableData | examples/demo-app/src/actions.js:313-343 | dispatches the rows' features with no layer id, or the 404 load error for the all-polygons endpoint |
| Loaders.LoadEditableDataLayer | examples/demo-app/src/actions.js:363-395 | dispatches the rows' features with the layer id as given, or the 404 load error for that layer's endpoint |
| Loaders.LoadedRowSavesAsUpdate | examples/demo-app/src/actions.js:267-278 | a loaded row with a whole-number id is saved back as an update of that row with its own details |
| Loaders.AllPolygonsNeverSelected | examples/demo-app/src/actions.js:323-336 | the all-polygons load gives features without a layer, which no numeric layer selection makes active |
| Loaders.LayerLoadThenSelect | examples/demo-app/src/actions.js:363-387 | loading layer `n` by its text and selecting it makes its rows active after the earlier active ones |
| Findings.ByNumberAgreesOnNumbers | examples/demo-app/src/reducers/index.js:204-208 | for numeric layer ids, comparing `Number(layerId)` is the fetch as written |
| Findings.ByNumberFetchTwice | examples/demo-app/src/reducers/index.js:204-208 | with the comparison on `Number(layerId)`, loading a layer again by number or text changes nothing |
| Findings.ByNumberKeepsLayersDistinct | examples/demo-app/src/reducers/index.js:204-208 | with that comparison no layer is ever recorded twice |
| Findings.LayerTextFetchedTwiceOnce | examples/demo-app/src/reducers/index.js:204-208 | with that comparison, loading layer `n` twice by its text loads it once |
| Findings.Unmatched | examples/demo-app/src/reducers/index.js:234-235 | the features that do not match, in order |
| Findings.FixedRemovesEveryMatch | examples/demo-app/src/reducers/index.js:251-254 | staying on the index after a splice removes every matching feature and keeps the others in order |
| Findings.FixedClearsSelection | examples/demo-app/src/reducers/index.js:252-254 | under the same conditions the selection is cleared exactly when some feature matched |
| Findings.FixedAgreesWithoutSplice | examples/demo-app/src/reducers/index.js:234-259 | where nothing is spliced out, the corrected loop is the loop as written |
| Findings.FixedRemovesAdjacentDuplicates | examples/demo-app/src/reducers/index.js:252-253 | the corrected loop removes both adjacent features with the same id |

## Left out

- `LAYER_CLICK` in `composedReducer` (the tooltip on the selected polygon) is not modelled. Its containment check is a floating-point bounds check in an external mapping library.
- The kepler.gl reducer (`demoReducer`) is not modelled. It runs after the pre-step for every action the demo's updaters do not handle, including the drawing tool's `SET_FEATURES`. The model leaves the editor state as the pre-step left it.
- The action creators `loadRemoteResourceSuccess`, `setPushingFile` and `setCloudLoginSuccess` have no constructor of their own. The core does not handle their actions, so they are all `Actions.Other`.
- `loadRemoteResourceSuccess`, `loadLayersMetadata`, `loadReadOnlyDataLayer`, the sample, remote-map, cloud and login flows, `postData` and `fetch` are not modelled. The outcomes of requests are inputs: `resolves` for the save, and the row list or `None` for the loaders.
- The well-known-text parser is a parameter (`parse`). `JSON.stringify` of a geometry is not modelled: requests carry the geometry itself.
- Object aliasing is not modelled. `SET_EDITABLE_LAYERS` puts the loaded feature objects themselves into the active list, and the first update after it changes those objects in place. That change is therefore also visible in `loadedFeatures`. The model has value semantics: an update never changes `loadedFeatures`.
- `EditorState.VisState.UpdatePolygonDetails` and `EditorState.VisState.DeletePolygon` do not model the `JSON.parse(JSON.stringify(...))` copies at `reducers/index.js:263` and `:273` value by value. Those copies turn a NaN field (an id, a layer id or a custom field) into `null`, and the model keeps NaN there. On features without a NaN field the copies change nothing, and the model treats them that way.
- `EditorState.VisState.Reduce` requires a non-empty drawn-feature list on `SET_FEATURES`. With an empty list the source records `undefined` as a loaded feature, or throws when features were already loaded.
- `JsValues.StringToNumber` covers an optional sign, decimal digits and an optional fraction. Whitespace, exponents, hexadecimal, binary and octal prefixes, and `Infinity` are read as NaN, and infinite numbers are not represented. The ids this core handles are decimal.
- `Sync.SaveEditableToRemote` does not model the JSON decoding of each response or the order in which requests settle. One rejection anywhere prevents the dispatch.
- Feature fields the core only carries along are not modelled: `type`, `properties.renderType`, and `appName`, `currentOption` and `featureFlags` of the app state.
- The URLs are represented by `Actions.Endpoint` and the request kinds, not as text.
- The React components are not part of this model. The model only assumes what their payloads look like: text layer ids from the load dialog, numeric ids from the layer checkboxes, and form fields as given.

## Findings

| source | as written | input that shows it | evidently intended | confidence | as-written member | corrected member |
|---|---|---|---|---|---|---|
| examples/demo-app/src/reducers/index.js:204-208 | checks whether `layerId` itself is among the fetched layers, but records `Number(layerId)`; the load dialog passes the layer id as text | `FETCH_EDITABLE_SUCCESS` with layer id `"3"` twice gives fetched layers `[3, 3]` and the layer's polygons twice | compare the value it records, so a layer is fetched once (proved in Findings.LayerTextFetchedTwiceOnce and Findings.ByNumberKeepsLayersDistinct) | high; not executed | EditorLemmas.LayerTextFetchedTwiceDuplicates | Findings.FetchEditableByNumber |
| examples/demo-app/src/reducers/index.js:252-253 | after `splice(i, 1)` the loop still advances `i`, so the feature that moved into slot `i` is never looked at | active features `[f, f]` with the same id, updated to a layer not fetched, leave `[f]` with its old details | look at the moved feature too, removing every match (proved in Findings.FixedRemovesEveryMatch and Findings.FixedRemovesAdjacentDuplicates) | medium; not executed | EditorLemmas.UpdateSkipsFeatureAfterSplice | Findings.UpdateFromFixed |
