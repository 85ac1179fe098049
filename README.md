# Network route map: a Dafny model

This project models two parts of a network-monitoring web front end.

- `src/utils/map-logic.ts` is the route map page. Its `init` draws one map layer per fibre
  route. Each layer gets a colour hashed from its connection id. The page keeps
  at most one route highlighted at a time. The connection form creates or updates
  a connection. The find-point form places a marker a given distance along a route.
- `src/middleware.ts` is the request gate. It runs before every page and decides
  between serving the page, redirecting to the login page, or deleting the
  auth cookie.

The modules are:

| module | file | what it models |
|---|---|---|
| `Wrappers` | wrappers.dfy | `Option` and `Result` |
| `JsText` | js_text.dfy | the JavaScript string and number primitives the code relies on: `startsWith`, `includes`, `split`, `join`, `trim`, `toString()` of an integer and `parseInt` without a radix (NaN is `None`) |
| `Types` | types.dfy | the page data (routes, nodes, interfaces, connections) and the two lookups: `Array.find` (first match) and `new Map(...).get` (last match) |
| `ColorHash` | color_hash.dfy | `stringToColor`, as a method that runs the source's two loops, and the 32-bit rolling hash and colour functions it is proved against |
| `Selection` | selection.dfy | layer styles, cached original styles and the selected layer, as values, with the layer-click and map-click transitions |
| `FindPoint` | find_point.dfy | the find-point submit handler's chain of checks, the reversed traversal line and the Google Maps link |
| `ConnectionForm` | connection_form.dfy | the ODP path field (parsing, and the text the edit button writes), the create/update request, and the option lists of the port and start-node selects |
| `MapLogic` | map_session.dfy | the page itself: class `MapSession`, whose constructor is the route-drawing loop of `init` and whose methods are the click and submit handlers that update the page's state in place |
| `Middleware` | middleware.dfy | `onRequest`, as a decision function |

Route layers are identified by the index of their route in the page's `routes`.
The page's mutable state is held in the fields of `MapSession`:

- the current style of every layer;
- the selected route layer;
- the find-point marker and the markers on the map;
- the find-point dialog's fields.

What the source leaves to foreign code becomes a parameter:

- the backend probe in the middleware is a `ProbeOutcome` input;
- `turf.along` is the `along` parameter;
- the Number-to-string conversion of a latitude or longitude is the `numberText` parameter;
- the parsed distance field is the `distance` parameter (`None` for NaN).

In these details the model follows what the code does:

- The find-point handler checks the distance for NaN before it looks up the route (`src/utils/map-logic.ts:369-380`).
- A connection that is missing after the route was found makes the handler return silently (`src/utils/map-logic.ts:391-392`). No failure is shown to the user. `FindPoint.Locate` reports it as `ConnectionNotFound`.
- A route whose geometry is missing makes the handler throw before it touches the marker. `FindPoint.Locate` reports this as `GeometryMissing`.
- When the route has to be reversed, `turf.lineString` rejects a line of fewer than two positions and throws before the marker is touched (`src/utils/map-logic.ts:397`). `FindPoint.Locate` reports this as `LineTooShort`.
- When the start-node select has no option, the handler removes the previous marker from the map and then throws while reading the selected option's text (`src/utils/map-logic.ts:402-413`). The map is left without a marker while `findPointMarker` still names the removed one. `MapLogic.MapSession.SubmitFindPoint` reports this as `StartNodeMissing`.
- A negative distance is not rejected: only the upper bound is checked (`src/utils/map-logic.ts:382`).
- The find-point handler takes the first route with the connection id (`routes.find`). `routeLayers`, which the view button uses, keeps the last layer drawn for that id (`src/utils/map-logic.ts:137`). `nodeMap` and `connectionMap` also keep the last entry per id.

## Model

| member | source | states |
|---|---|---|
| `ColorHash.ToInt32` | src/utils/map-logic.ts:32 | the result is a signed 32-bit value congruent to its input modulo 2^32 |
| `ColorHash.Hash` | src/utils/map-logic.ts:29-33 | the rolling hash `31 * h + code` stays in the unsigned 32-bit range |
| `ColorHash.JsStepAgrees` | src/utils/map-logic.ts:32 | one step `code + ((hash << 5) - hash)` on an unbounded Number agrees, modulo 2^32, with `31 * h + code` |
| `ColorHash.HashLoopStep` | src/utils/map-logic.ts:30-33 | each round of the hash loop keeps `hash` congruent to the rolling hash of the prefix read so far |
| `ColorHash.SignedChannel` | src/utils/map-logic.ts:36 | `(v >> 8i) & 0xff` on the signed value is the same byte as on the unsigned value |
| `ColorHash.JsChannels` | src/utils/map-logic.ts:35-36 | every byte the channel loop extracts from the source's `hash` is the channel of the 32-bit hash |
| `ColorHash.PaddedHex` | src/utils/map-logic.ts:37 | `("00" + v.toString(16)).substr(-2)` is the byte's two lower-case hex digits, high digit first |
| `ColorHash.StringToColor` | src/utils/map-logic.ts:29-40 | the method that runs both source loops returns exactly `ColorFor(str)` |
| `ColorHash.ColorBytes` | src/utils/map-logic.ts:34-39 | the colour is '#' followed by the hex bytes of channels 0, 1 and 2, lowest byte first |
| `ColorHash.ColorShape` | src/utils/map-logic.ts:34-39 | every colour is '#' followed by six lower-case hex digits |
| `ColorHash.ColorChannels` | src/utils/map-logic.ts:35-37 | digits 2i+1 and 2i+2 of the colour decode back to channel i of the hash |
| `ColorHash.ColorIdentifiesLow24Bits` | src/utils/map-logic.ts:29-40 | two hashes give the same colour if and only if their low 24 bits are equal |
| `ColorHash.LastCharacterDistinguishes` | src/utils/map-logic.ts:108 | two connection-id strings that differ only in their last character get different colours |
| `ColorHash.HighlightYellowIsReachable` | src/utils/map-logic.ts:108-128 | route colours can coincide with the highlight yellow: connection id 22638725 is drawn in "#ffff00", the highlight's "#FFFF00" in lower case |
| `JsText.TrimStart` | src/utils/map-logic.ts:240 | the result is the input without its leading white space: everything removed is white space, and what is left does not start with white space |
| `JsText.TrimEnd` | src/utils/map-logic.ts:240 | the result is the input without its trailing white space: everything removed is white space, and what is left does not end with white space |
| `JsText.Split` | src/utils/map-logic.ts:239 | the split has at least one piece, and no piece contains the separator |
| `JsText.SplitWithoutSeparator` | src/utils/map-logic.ts:239 | a string without the separator splits into itself alone |
| `JsText.SplitAtFirst` | src/utils/map-logic.ts:239 | the text before the first separator is the first piece, and the rest splits on its own |
| `JsText.IntToString` | src/utils/map-logic.ts:108 | an integer's decimal form is made of digits, preceded by a minus exactly for negative integers, with no leading zero except for 0 itself, which is "0" |
| `JsText.ParseIntOfIntToString` | src/utils/map-logic.ts:318-322 | `parseInt` reads back the decimal form of every integer |
| `JsText.ParseIntOfEmpty` | src/utils/map-logic.ts:313 | `parseInt("")` is NaN |
| `JsText.TrimIntToString` | src/utils/map-logic.ts:240 | trimming an integer's decimal form leaves it unchanged |
| `Types.FirstIndex` | src/utils/map-logic.ts:374-376 | `find` gives the first element with the key, or nothing exactly when no element has it |
| `Types.LastIndex` | src/utils/map-logic.ts:143-146 | a `Map` built from `[id, x]` pairs answers with the last element with the key, or nothing exactly when no element has it |
| `Selection.RestoreSelected` | src/utils/map-logic.ts:121-123 | only the selected layer's style changes, and it goes back to that layer's original style |
| `Selection.Select` | src/utils/map-logic.ts:120-130 | after a layer click the clicked layer is highlighted and selected; the previous selection gets its original style back; every other layer keeps its style |
| `Selection.Clear` | src/utils/map-logic.ts:91-96 | after a map click nothing is selected and the original styles are untouched; with no selection nothing changes |
| `Selection.Run` | src/utils/map-logic.ts:89-134 | any sequence of clicks keeps the set of layers and their original styles |
| `Selection.SelectKeepsConsistent` | src/utils/map-logic.ts:120-130 | a layer click preserves the invariant: the selected layer is highlighted, and every other layer shows its own base-style original |
| `Selection.ClearKeepsConsistent` | src/utils/map-logic.ts:91-96 | a map click preserves the same invariant |
| `Selection.RunKeepsConsistent` | src/utils/map-logic.ts:89-134 | every sequence of layer and map clicks preserves the invariant |
| `Selection.HighlightedIsSelection` | src/utils/map-logic.ts:121-130 | in a consistent state exactly the selected layer is highlighted, so at most one layer is |
| `Selection.SelectThenSelect` | src/utils/map-logic.ts:120-130 | clicking a and then b returns a to its original style and leaves only b highlighted |
| `Selection.ClearRestoresAll` | src/utils/map-logic.ts:91-96 | a map click returns every layer to its original style and leaves none highlighted |
| `FindPoint.Reverse` | src/utils/map-logic.ts:396 | the reversal has the same length, and position i holds the element at position n-1-i |
| `FindPoint.ReverseIsInvolution` | src/utils/map-logic.ts:396 | reversing twice gives the original line |
| `FindPoint.Locate` | src/utils/map-logic.ts:362-408 | the checks fail in source order: NaN distance, missing route, distance beyond the route's length (reporting that length), missing connection, missing geometry, and a reversed line too short for `turf.lineString`; otherwise the result is the traversal line (reversed exactly for a B start), the entered distance, lat = `along(line, d)[1]`, lng = `along(line, d)[0]`, and the maps link built from lat then lng |
| `FindPoint.TraversalLineOrder` | src/utils/map-logic.ts:393-398 | the line walked is the stored line, mirrored exactly when the start node is the connection's B device |
| `FindPoint.DistanceBeyondRouteFails` | src/utils/map-logic.ts:382-389 | a distance beyond the route's length fails and reports that length |
| `FindPoint.RouteLengthAccepted` | src/utils/map-logic.ts:382 | a distance equal to the route's length is accepted |
| `FindPoint.StartFromBWalksReversed` | src/utils/map-logic.ts:395-407 | starting from B, the point is the one `along` gives on the reversed line, and reversing it again gives the stored line |
| `FindPoint.MapsLinkReadsBack` | src/utils/map-logic.ts:406-408 | the maps link carries latitude then longitude, and both read back from it |
| `ConnectionForm.SomesAppend` | src/utils/map-logic.ts:241 | dropping NaNs keeps the order and distributes over concatenation |
| `ConnectionForm.ParseEachAppend` | src/utils/map-logic.ts:240 | mapping over the pieces distributes over concatenation |
| `ConnectionForm.ParsePiecesAppend` | src/utils/map-logic.ts:238-241 | parsing the ODP pieces distributes over concatenation |
| `ConnectionForm.ParsePiecesSingle` | src/utils/map-logic.ts:240-241 | one piece contributes its integer, or nothing when `parseInt` gives NaN |
| `ConnectionForm.ParseJoinedDecimals` | src/utils/map-logic.ts:238-241 | a non-empty id list joined with ", ", after any leading white space, parses back to the list |
| `ConnectionForm.OdpPathRoundTrip` | src/utils/map-logic.ts:324 | submitting the ODP path text the edit button wrote gives back the connection's path; a missing path gives the empty path |
| `ConnectionForm.ConnectionSave` | src/utils/map-logic.ts:229-247 | the request is PUT if and only if the hidden id is non-empty (POST otherwise); the URL is the connections endpoint, followed by "/" and the id when editing, and the endpoint alone otherwise |
| `ConnectionForm.EditSavesConnection` | src/utils/map-logic.ts:318 | after the edit button, saving is a PUT whose URL ends in that connection's id |
| `ConnectionForm.EditResubmitsConnection` | src/utils/map-logic.ts:232-242 | when the fields hold what the edit button wrote, the body sent is the connection's own devices, ports, description and ODP path |
| `ConnectionForm.PortChoicesAt` | src/utils/map-logic.ts:193-201 | one option per interface, in interface order |
| `ConnectionForm.PortChoicesSpec` | src/utils/map-logic.ts:193-201 | each option's value parses back to its interface id; its text is "ifName (ifDescr)"; it is selected if and only if it is the given port |
| `ConnectionForm.StartChoiceDirection` | src/utils/map-logic.ts:342-356 | each start-node option names device A or B, and choosing it reverses the route exactly when it is B's option or A and B are the same device |
| `MapLogic.DeviceNodeIsLookup` | src/utils/map-logic.ts:185-190 | the empty-value guard agrees with looking up `parseInt` of the value, and a found node has the parsed id |
| `MapLogic.Without` | src/utils/map-logic.ts:402-404 | removing a marker leaves exactly the other markers |
| `MapLogic.DrawnSpec` | src/utils/map-logic.ts:98-139 | exactly the routes with a geometry get a layer, and each layer records its own route's value |
| `MapLogic.RouteStyleIsBase` | src/utils/map-logic.ts:108-118 | every route layer is drawn with weight 3, opacity 0.8 and a "#rrggbb" colour |
| `MapLogic.InitialLayersConsistent` | src/utils/map-logic.ts:97-139 | right after drawing, nothing is selected and the layer state satisfies the invariant |
| `MapLogic.LayerIndexIsLastLayer` | src/utils/map-logic.ts:137 | `routeLayers[cid]` exists if and only if some drawn route has that id, and then it holds the last such layer |
| `MapLogic.LayerIndexInDrawn` | src/utils/map-logic.ts:137 | every layer in `routeLayers` is a drawn layer |
| `MapLogic.PopupTitleSpec` | src/utils/map-logic.ts:102-107 | the popup title is the description of the first connection with the route's id when that description is non-empty, and "Connection" when it is empty or no connection has the id; conversely, a title other than "Connection" is such a description |
| `MapLogic.MapSession.constructor` | src/utils/map-logic.ts:97-139 | the drawing loop gives each drawn layer its route's style as both current and original style, records its popup title, and indexes it under its connection id; nothing is selected and there is no marker |
| `MapLogic.MapSession.MapClick` | src/utils/map-logic.ts:91-96 | the new layer state is `Clear` of the old one, and the invariant is kept |
| `MapLogic.MapSession.LayerClick` | src/utils/map-logic.ts:120-133 | the new layer state is `Select` of the old one; propagation is stopped if and only if the click carries a DOM event; the invariant is kept |
| `MapLogic.MapSession.ViewRoute` | src/utils/map-logic.ts:268-284 | the view button selects the layer `routeLayers` holds for the row's connection, and does nothing when there is none |
| `MapLogic.MapSession.OpenFindPoint` | src/utils/map-logic.ts:330-360 | for a known connection the dialog gets its id, which parses back, and the start-node options of devices A and B; for an unknown one nothing changes |
| `MapLogic.MapSession.SubmitFindPoint` | src/utils/map-logic.ts:362-443 | the outcome is `Locate` applied to the dialog's connection id and the chosen start-node option's value ("" when the select is empty), except that a success with an empty select becomes `StartNodeMissing`, after which the old marker is off the map and no new one is added; when `Locate` fails, nothing changes; on success the single marker on the map is the new point with its link |
| `MapLogic.MapSession.ShowLocated` | src/utils/map-logic.ts:402-443 | the old marker is removed; the new marker is placed, and becomes the only one on the map, exactly when the start-node select has an option; otherwise the map is left with no marker and `findPointMarker` is unchanged |
| `MapLogic.MapSession.RemoveFindPointMarker` | src/utils/map-logic.ts:402-404 | after `map.removeLayer(findPointMarker)` the map shows no find-point marker, and the invariant is kept |
| `MapLogic.MapSession.PopulatePorts` | src/utils/map-logic.ts:180-203 | the port select is disabled and empty unless the chosen device is a known node; otherwise it is enabled with one option per interface of that node |
| `MapLogic.MapSession.AppendPortOptions` | src/utils/map-logic.ts:193-201 | the loop appends exactly the port options of the interfaces, in order |
| `Middleware.OnRequest` | src/middleware.ts:3-43 | a logged-in user on a login path goes to "/"; the page is served exactly for public paths not thus redirected, or after a probe status other than 401; an anonymous user on a non-public path goes to "/login"; the cookie is deleted exactly after a 401; a network error goes to the api-unavailable login page |
| `Middleware.NoProbeNoDependence` | src/middleware.ts:8-22 | when the backend is not asked, its answer cannot change the decision |
| `Middleware.CookieDeletedOnlyOn401` | src/middleware.ts:34-37 | the cookie is deleted only for a token the backend answered 401 |
| `Middleware.OtherStatusesPass` | src/middleware.ts:34-38 | every status other than 401, error statuses included, serves a non-public page |
| `Middleware.PrefixAndDotExamples` | src/middleware.ts:8-18 | the checks are prefix and substring tests: "/loginx" counts as a login path, "/reports/v1.2" is public because of its dot, "/api" is not public but "/api/nodes" is |

## Left out

- Leaflet rendering is not modelled: tiles, icons, node markers, `setView`, `fitBounds`, `flyTo`, `bringToFront` and opening popups. The view button's `fire("click")` is modelled as the layer click it triggers, with no DOM event.
- `MapLogic.MapSession.ViewRoute` does not model the popup it opens or the bounds it fits: it states only the selection change.
- `MapLogic.MapSession.constructor` records the popup title but not the rest of the popup text. That text includes the distance in km formatted with `toFixed(2)`, which is floating-point formatting.
- Alert texts, `console.error`, `confirm`, `location.reload`, the clipboard and the modal checkboxes are not modelled; they are browser I/O.
- The delete button is not modelled: it is a `confirm` followed by a network call, with no state in the page.
- The `fetch` calls and their responses are not modelled. The connection form is modelled up to the request it would send (`ConnectionSave`, `ConnectionPayload`).
- `form.reset()` and `resetForm` are not modelled: they only clear DOM fields.
- `turf.along`, `parseFloat` and Number-to-string conversion of coordinates are parameters, not definitions. What `turf.along` does with a line it cannot walk, such as an empty line that is not reversed, is part of the `along` parameter.
- `turf.lineString` is modelled only by its rejection of lines with fewer than two positions (`LineTooShort`). The reversal itself is `FindPoint.Reverse` on the positions.
- GeoJSON is reduced to one LineString's positions per route, drawn as one layer. A multi-feature geometry, with one clickable sub-layer per feature, is not modelled.
- Null entries in `routes` and a missing `interfaces` array are not modelled. Every route is a value, and every node has an interface list.
- `ColorHash.StringToColor`: JavaScript holds `hash` in a double, so the model's unbounded integer is exact only while `|hash|` stays below 2^53. That holds for strings shorter than about four million characters, far longer than any connection id.
- `JsText.IntToString` does not cover integers of 1e21 and above, which JavaScript writes in exponent notation.
- Strings are sequences of Unicode scalar values. They differ from JavaScript's UTF-16 code units only outside the Basic Multilingual Plane. The only string that is hashed is a connection id's decimal form.
- The middleware's fetch URL and `Authorization` header are not modelled: the probe is an input.
