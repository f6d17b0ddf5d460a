# Voxelcraft core in Dafny

A model of the core of Voxelcraft, a shared voxel world. Every player's
client holds a copy of the world: the built boxes, the placeholder frontier
where a box may be built, and the box the player is aiming at. A small
relay server keeps the set of built cells and rebroadcasts every build or
destroy event to all clients.

The model covers four parts:

- **Grid utilities** (`keys.dfy`, `decimal.dfy`, `neighbors.dfy`). The
  `"x,y,z"` key and its decoder use JavaScript's template-literal spelling
  and `parseInt(s, 10)`, both modelled exactly. The model also covers the
  `placeholder_` / `final_` element ids, `exists`, and the neighbourhood
  listing `nineNeighbors`.
- **The client world** (`keyedmaps.dfy`, `world.dfy`). These are the
  `finalizeBox` (build), `deleteBox` (destroy) and `setupLocal` transitions,
  the state rebuild of `syncWithServer` from the `/all` snapshot, and the
  socket `message` dispatch. Maps are keyed by strings, as in the source,
  and values are `null`, a cell, or the object with `NaN` fields that
  decoding an unparsable string produces. `KeyedMaps.LiveValues` is the
  set of boxes `drawFinalizedBoxes` draws, and the model tracks how each
  event changes it.
- **The raycast** (`raycast.dfy`, `targeting.dfy`). This is the
  Amanatides–Woo voxel traversal, with its helpers `intbound`, `mod`,
  `signum` and `distance`, computed in exact reals. `updateCurrent` uses it
  to choose the targeted box. `raypath.dfy` ties every visited cell and
  every crossing to the geometric ray `origin + t * direction`, and gives a
  corrected start for origins on a cell boundary. `floatray.dfy` replays
  the same loop over JavaScript numbers for a direction with a `-0`
  component, and shows that without `-0` it visits the same cells as the
  exact loop.
- **The server** (`server.dfy`, `protocol.dfy`). This covers `isNumber`,
  `isNatural`, `validAction`, `validCoordinate`, the message handler's map
  write and broadcast, and the `/all` filter. It also gives a corrected
  handler that really ignores invalid messages.

The world size (`LIMIT_X`, `LIMIT_Y`, `LIMIT_Z`) and the neighbour offsets
(`DELTA`) are parameters (`Neighbors.Config`), because const.ts is not part
of this model.

Some behaviours of the code are easy to miss. The model keeps them as the
code has them, and the lemmas named here make each one explicit:

- **The neighbourhood contains the cell itself.** `nineNeighbors` lists the
  cell itself whenever `0` is an offset (`Neighbors.CentreIsNeighbor`). It
  clips to `[0, LIMIT]` inclusive, while the raycast only calls back inside
  `[0, LIMIT)`. So placeholders on the far faces can never be targeted
  (`Targeting.FarFaceNeverTargeted`).
- **A build does not check for built neighbours.** It makes every other
  neighbourhood cell a live placeholder, even one that is already built
  (`World.FinalizeMarksBuiltNeighbor`).
- **A destroy never shrinks the frontier**
  (`World.DeleteNeverShrinksFrontier`, `World.DestroyKeepsGrownFrontier`).
- **A snapshot rebuild is not a replay of builds.** The rebuild leaves each
  built cell as a live placeholder too, while a build tombstones it
  (`World.SyncKeepsBuiltAsPlaceholder`). It also files built boxes under the
  raw snapshot text rather than the canonical key (`World.SyncBuilt`).
- **Ties in the traversal go to the later axis.** When two next crossings
  are equal, the nested comparisons step along the later axis: Y over X,
  and Z over both (`Ray.ChooseAxisSpec`).
- **A miss keeps the old target.** When the ray finds nothing, the previous
  target stays (`Targeting.MissKeepsTarget`).
- **The server echoes events back to their sender.** By the time the echo
  arrives, camera events may have retargeted. The echo leaves both maps as
  the local action made them and only clears the target again
  (`Targeting.EchoOnlyClearsTarget`).
- **A build keeps the frontier closed.** Every neighbourhood cell of a
  built cell that is not itself built stays a live placeholder, through
  every socket event and from either way of starting a session
  (`World.DispatchKeepsFrontierClosed`, `World.StartsFrontierClosed`).
- **A start on a cell boundary lags by one cell.** When an origin
  coordinate is an integer and the ray moves down that axis, the loop
  starts in the cell above the one the ray enters. Until its first crossing
  on that axis it calls back on cells the ray never touches (see Findings).
- **A level gaze never moves sideways.** With the pitch exactly `+0`,
  `normalize` gives a `-0` vertical component, and the traversal then
  never steps along X (see Findings).
- **Server validation only logs** (see Findings).

## Model

| member | source | states |
|---|---|---|
| Decimal.IntToString | auxFunc.ts:60-62 | The spelling of a coordinate is non-empty, starts with a digit or a minus sign and has no comma, so the three fields of a key never run together |
| Decimal.ParseIntOfIntToString | auxFunc.ts:7-10 | `parseInt(s, 10)` reads back exactly the integer that `${n}` spelled, negatives included |
| Keys.Split | auxFunc.ts:8 | `split(',')` yields at least one piece and no piece contains a comma |
| Keys.SplitKey | auxFunc.ts:7-10 | Splitting a cell's key gives exactly its three spelled coordinates |
| Keys.DecodeKey | auxFunc.ts:7-10 | Decoding a key gives back every field of the encoded cell: the decoder inverts `positionToString` |
| Keys.KeyInjective | auxFunc.ts:60-62 | Distinct cells have distinct keys, so a key-indexed map holds at most one entry per cell |
| Keys.GetElementPositionFromId | auxFunc.ts:12-20 | The id decoder throws exactly when the id starts with neither `placeholder` nor `finalized` |
| Keys.PlaceholderIdRoundTrip | auxFunc.ts:52-54 | A placeholder box's id decodes back to its cell |
| Keys.FinalIdIsRejected | auxFunc.ts:56-58 | A built box's `final_` id passes the `final` prefix test but the id decoder rejects it |
| Keys.FinalizedIdRoundTrip | auxFunc.ts:16-18 | A `finalized_` id passes the `final` prefix test and decodes back to its cell |
| Keys.DecodedKeyOfCell | scene.tsx:35-36 | A message whose text decodes to a cell is filed under that cell's canonical key, so `01,2,3` and `1,2,3` share one entry |
| Keys.GarbledKeyIsNoCellKey | auxFunc.ts:7-10 | Text with a `NaN` or missing field is filed under a key that spells `NaN` or `undefined`, which is never a cell's key |
| Neighbors.NineNeighborsMember | auxFunc.ts:34-50 | A cell is listed exactly when its offsets from the centre are `DELTA` values and it lies in `[0, LIMIT]` on every axis |
| Neighbors.CentreIsNeighbor | auxFunc.ts:34-50 | With `0` among the offsets, an in-bounds cell lists itself |
| Neighbors.NineNeighborsNoDup | auxFunc.ts:34-50 | With distinct offsets no cell is listed twice |
| KeyedMaps.AddIfUndefinedSpec | scene.tsx:101-107 | The "set if undefined" loop adds exactly the listed cells' keys and keeps every present entry; each new key holds its own cell |
| KeyedMaps.SeedUnlessLiveSpec | scene.tsx:62-68 | The "set unless built" loop writes each listed cell whose key is not live in the built map, and changes no other entry |
| World.GroundCellsMember | scene.tsx:124-129 | The two nested ground loops visit exactly the cells `(i, 0, j)` with `1 <= i < LIMIT_X` and `1 <= j < LIMIT_Z` |
| World.ListedNeighbors | scene.tsx:101-107 | The placeholders a build lists are exactly the neighbourhood cells, each under its own key |
| World.FinalizeBuilds | scene.tsx:98-120 | After a build the cell is built and its own placeholder entry is tombstoned. Nothing is targeted, and every other built entry is unchanged |
| World.FinalizeFrontier | scene.tsx:108-113 | After a build every other neighbourhood cell is a live placeholder, whatever it held before |
| World.FinalizeFrame | scene.tsx:108-113 | A build only adds placeholder keys, namely the neighbourhood and the cell itself. Entries outside both keep their values |
| World.FinalizeMarksBuiltNeighbor | scene.tsx:101-113 | A built neighbour of a new build is afterwards both built and a live placeholder |
| World.FinalizeIdempotent | scene.tsx:98-120 | Applying a build twice equals applying it once |
| World.DeleteSpec | scene.tsx:82-96 | After a destroy the built entry is tombstoned but its key remains, the cell is a live placeholder, and nothing is targeted. Every other entry is unchanged |
| World.DeleteNeverShrinksFrontier | scene.tsx:85-89 | A destroy keeps every placeholder key, and every live placeholder stays live |
| World.DestroyKeepsGrownFrontier | scene.tsx:82-120 | Build then destroy leaves the whole neighbourhood as live placeholders and the cell unbuilt |
| World.SetupLocalSpec | scene.tsx:122-135 | The offline fallback builds nothing and targets nothing. It makes exactly the ground cells placeholders, each under its own key |
| World.SyncBuilt | scene.tsx:50-53 | A rebuild files every snapshot item under its raw text with its decoded object. A cell's key is live exactly when it is an item. Nothing is targeted |
| World.SyncNear | scene.tsx:54-60 | The rebuild's neighbourhood pass lists exactly the neighbourhood cells of the decoded items, each under its own key |
| World.SyncFrontier | scene.tsx:50-73 | The rebuilt frontier is exactly the built cells' neighbourhoods plus the ground cells whose key is not a snapshot item. Each placeholder holds its own cell |
| World.SyncKeepsBuiltAsPlaceholder | scene.tsx:50-73 | A snapshot item's cell is both built and a live placeholder after a rebuild, while a build leaves it tombstoned as a placeholder |
| World.DispatchSpec | scene.tsx:34-37 | A `build` of decodable text makes its cell built and tombstones its own placeholder, makes every other neighbourhood cell a live placeholder, clears the target and keeps every other built entry. A `destroy` tombstones the built entry, makes the cell a live placeholder again, clears the target and keeps every other entry of both maps. Any other action, or a `c` that is not a string, changes nothing |
| World.GarbledEventIsInert | scene.tsx:34-37 | An event whose text does not decode clears the target. Otherwise no cell's entry in either map changes |
| World.BuildDraws | scene.tsx:115-118 | In a well-keyed built map, a build keeps the map well keyed and adds exactly its cell to the drawn boxes |
| World.DestroyUndraws | scene.tsx:91-94 | In a well-keyed built map, a destroy keeps the map well keyed and removes exactly its cell from the drawn boxes |
| World.DispatchKeepsWellKeyed | scene.tsx:34-37 | Every socket event keeps the built map well keyed: each cell under its own key and each garbled object under a key that is no cell's key |
| World.SyncWellKeyed | scene.tsx:50-53 | A snapshot whose decodable items are all canonical keys rebuilds a well-keyed built map |
| World.NonCanonicalItemStaysDrawn | scene.tsx:50-96 | A snapshot item spelled other than its cell's key, such as `01,2,3`, stays drawn after a destroy of that cell, which tombstones only the canonical key |
| Targeting.EchoOnlyClearsTarget | scene.tsx:34-37 | The echo of one's own build or destroy, received after any sequence of camera updates, restores exactly the state the local action produced |
| Ray.Signum | raycast.ts:158-160 | The step is zero exactly for a zero direction and otherwise has the direction's sign |
| Ray.ModUnit | raycast.ts:162-164 | `mod(v, 1)` is the fractional part `v - floor(v)`, in `[0, 1)`, for negative `v` too |
| Ray.IntBoundFinite | raycast.ts:139-148 | `intbound` is `+Infinity` exactly when the direction component is zero |
| Ray.IntBoundSpec | raycast.ts:139-148 | For a moving axis, `intbound` is the smallest positive `t` at which `s + t*ds` is an integer, at most `1/abs(ds)` |
| Ray.DistanceSpec | raycast.ts:150-156 | `distance` is never negative. It bounds each axis's squared offset to the cell centre and is zero at the centre |
| Ray.ChooseAxisSpec | raycast.ts:97-134 | The stepped axis has the least next crossing. X needs a strict minimum, Y a strict win over Z, and Z wins every tie it is in |
| Ray.ChosenAxisMoves | raycast.ts:97-134 | For a non-zero direction the loop never steps along an axis the ray does not move on |
| Ray.AdvanceSpec | raycast.ts:99-133 | A step moves one cell along one axis and records the face that points back to the cell it left. That axis's next crossing moves strictly later and the others stay |
| Ray.MeasureDecreases | raycast.ts:80-135 | Each step lowers the number of crossings still within the radius, so the loop terminates |
| Ray.StepStaysOrStops | raycast.ts:80-87 | From a cell inside the world, a step lands inside the world or ends the loop |
| Ray.RunInWorld | raycast.ts:85-91 | The callback is only called for cells in `[0, maxSize)` |
| Ray.RunFirstAccepted | raycast.ts:85-91 | The returned cell is the last one visited and the only one the callback accepted. With no result, the callback accepted none |
| Ray.RunStartsHere | raycast.ts:85-91 | A cursor inside the world is visited first, with its recorded face |
| Ray.RunContiguous | raycast.ts:80-135 | The visited cells form a face-connected path, each entered through its recorded face from the one before |
| Ray.RunCrossings | raycast.ts:93-134 | The boundary crossings taken are in non-decreasing order and none lies beyond the radius |
| Ray.RaycastSpec | raycast.ts:22-137 | A zero direction throws and nothing else does. Otherwise the visits stay in the world and form a path from the origin's cell, entered with a zero face. The result is the one accepted cell, and the crossings are positive, sorted and within the radius |
| Targeting.UpdateCurrentSpec | scene.tsx:170-184 | Only the target can change, and only with both pose values known and a non-zero direction. A new target is an in-world cell at least `2.5` away that holds a placeholder or a built box |
| Targeting.UpdateCurrentFirstAccepted | scene.tsx:172-181 | A new target is the first acceptable cell along the ray: every cell visited before it was rejected |
| Targeting.MissKeepsTarget | scene.tsx:178-182 | When the ray finds no acceptable cell the old target stays |
| Targeting.FarFaceNeverTargeted | scene.tsx:172-173 | A placeholder on a far face of the world (a coordinate equal to its limit) never becomes the target |
| Server.IsNaturalSpec | server/index.ts:18-20 | `isNatural` holds exactly for integral numbers, negative ones included |
| Server.ParsedIsNatural | server/index.ts:20-24 | Any `parseInt` result other than `NaN` passes `isNatural` |
| Server.ValidCoordinateSpec | server/index.ts:21-25 | `validCoordinate` holds exactly for a string with at least three fields whose first three `parseInt` reads. Later fields are ignored |
| Server.ClientKeysAreValid | server/index.ts:21-25 | Every key a client sends passes validation |
| Server.TwoFieldsInvalid | server/index.ts:23-24 | A string of two numbers fails validation |
| Server.ExtraFieldsIgnored | server/index.ts:23-24 | A key followed by any further fields passes validation |
| Server.HandleSpec | server/index.ts:44-56 | A parse failure, or a `c` that cannot be converted to a key, is logged as invalid and changes and sends nothing. Otherwise the warning is logged exactly for an invalid message, and only the message's own key is written, as built exactly for `build`. The message is then rebroadcast verbatim to every socket, the sender included, unless its `a` cannot be converted to a string: then the write stays, the `catch` logs it as invalid, and nothing is sent |
| Server.HandleAll | server/index.ts:34-50 | After a message `/all` lists its key exactly for `build` and lists every other key as before. A `c` that cannot be converted to a key changes no listing |
| Server.UnconvertibleActionDrifts | server/index.ts:50-52 | An action whose string conversion throws still unlists a built key, and no socket hears of it |
| Server.ValidatedWritesAreBroadcast | server/index.ts:47-52 | Under the corrected handler, every change to the map comes from a parsed message that is rebroadcast verbatim to every connected socket |
| FloatRay.NegativeZeroYNeverStepsX | raycast.ts:56-67 | With a `-0` vertical component and a non-zero horizontal one, the loop as written over JavaScript numbers calls back on the start cell twice, then never leaves its X column |
| Ray.LevelGazeStepsX | raycast.ts:97-134 | On the level gaze from (0.5, 0.5, 0.5) towards (0.6, 0, 0.8), the intended traversal visits (0, 0, 0), then (0, 0, 1), then (1, 0, 1) |
| FloatRay.AgreesWithExact | raycast.ts:56-135 | Over JavaScript numbers with no `-0` component, the loop throws exactly when the exact loop does. Given more passes than the exact loop can take, it calls back on exactly the exact loop's cells, in order |
| RayPath.AxisStart | raycast.ts:139-148 | On each axis the start cell and `intbound` fit the ray: the ray leaves the cell through the far boundary at `intbound`, which lies within one `tDelta` after 0. On an integral coordinate with a negative direction, the start cell is one above the cell the ray enters |
| RayPath.CursorAdvance | raycast.ts:97-134 | Each step is taken at a boundary crossing of the ray, no earlier than the previous one, and the new cell contains the ray point at that crossing |
| RayPath.RunOnRay | raycast.ts:80-135 | Every cell the loop calls back on, taken back by the start lag, contains a point of the ray within the radius. Every crossing taken is a parameter at which the ray is on a cell boundary |
| RayPath.RaycastOnRay | raycast.ts:22-137 | For the raycast as written, every visited cell, taken back by the lag on the lagging axes, is touched by the ray within the radius, and every crossing lies on a cell boundary |
| RayPath.LaggedStartLeavesRay | raycast.ts:47-63 | From (0.5, 1, 0.5) towards (0.6, -0.8, 0), the raycast as written calls back second on (1, 1, 0), a cell no point of the ray touches |
| RayPath.RaycastCorrectedOnRay | raycast.ts:22-137 | The raycast with the corrected start throws exactly for a zero direction. Every cell it visits is touched by the ray within the radius, and every crossing lies on a cell boundary |
| RayPath.XCrossingIsStepped | raycast.ts:97-134 | With a non-zero X component and no cell accepted, a ray that crosses an X boundary within the radius and stays inside the world until then visits a cell outside the origin's X column. A level gaze is one such ray |
| World.StartsFrontierClosed | scene.tsx:50-73 | After a snapshot rebuild, and after the offline fallback, every neighbourhood cell of a built cell is built or a live placeholder |
| World.FinalizeKeepsFrontierClosed | scene.tsx:98-120 | A build keeps every neighbourhood cell of every built cell built or a live placeholder |
| World.DeleteKeepsFrontierClosed | scene.tsx:82-96 | A destroy keeps every neighbourhood cell of every remaining built cell built or a live placeholder |
| World.DispatchKeepsFrontierClosed | scene.tsx:34-37 | Every socket event, including one with garbled text, keeps every neighbourhood cell of every built cell built or a live placeholder |
| Targeting.UnitReachIsDistance | scene.tsx:172 | With a unit view direction the cast does not throw, and every boundary it crosses lies within 20 cube edges of the viewer |
| Server.BuildThenDestroy | server/index.ts:34-52 | From an empty map, `/all` after a build of `c` is exactly `{c}` and after a following destroy is empty |
| Server.InvalidActionUnlists | server/index.ts:47-52 | An invalid action unlists a built key and is rebroadcast, while the corrected handler leaves `/all` unchanged |
| Server.HandleValidatedSpec | server/index.ts:47-49 | The corrected handler treats a valid message as before and lets an invalid one change nothing and reach no socket |

## Left out

- Rendering: `drawFinalizedBoxes`, the placeholder and target boxes, and `scalePosition`. These produce scene entities, not state.
- Transport: socket.io, `fetch`, `emit`, `sendBuild` and `sendDestroy` (the `send` flag of finalizeBox and deleteBox), and the async/try-catch wiring that falls back to setupLocal. The model takes the decoded `/all` array and the parsed message as inputs.
- Event wiring: the `click`, `positionChanged` and `rotationChanged` handlers of `sceneDidMount`, and `normalize`, which uses trigonometry. A pose holds the position and the unit direction `normalize` would produce.
- express, http, cors and `listen` on the server, and its console lines other than the two warnings.
- server/index.js is the compiled twin of server/index.ts and is not modelled separately.
- const.ts is not part of this model: the limits and `DELTA` are parameters.
- Ray.Raycast: takes the radius already divided by the direction's length (the source's `sqrt` rescale). Targeting passes 20, which is exact for the unit vectors `normalize` produces (`Targeting.UnitReachIsDistance`). The model does not prove that `normalize` yields a unit vector, because that needs trigonometry.
- Ray.Raycast: numbers are exact reals. The model has no floating-point rounding and no infinite radius. Every zero is `+0`. The `NaN` that `0/0` gives as the step of an unmoving axis is modelled as `0`, and the model shows it is never read.
- FloatRay.Raycast: models a `-0` component only as it reaches the loop's comparisons, and bounds the passes by fuel because the loop need not end. It records cells, not faces or crossings. A `-0` on X makes `intbound` return `-Infinity`, and the start cell is called back a second time before the ray moves on as usual. This case is not proved separately. A `-0` on Y freezes X, as `FloatRay.NegativeZeroYNeverStepsX` proves. A `-0` on Z would repeat one cell forever, but `normalize` never produces it, because the cosines it multiplies are never exactly zero.
- Ray.RaycastSpec: does not relate the visited cells to the ray's geometry. `RayPath.RaycastOnRay` does that, one-cell start lag included.
- Ray.DistanceSpec: does not prove that `distance` is zero only at the cell centre. That needs non-linear reasoning the solver does not do reliably here.
- Coordinates are unbounded integers. Spellings past `2^53` (exponent form, lost precision) are not modelled.
- Object key order: `/all` is modelled as a set. The rebuild's result does not depend on the order, since every key holds the one cell it spells.
- `__proto__` and other keys inherited by plain objects are not modelled; every key behaves as an own property.
- Server.Handle: a field that is not a string but converts to one is given with its converted key (`Protocol.Field.NonString`). The model does not compute JavaScript's conversion. A field whose conversion throws is `Protocol.Field.Unconvertible`, for example an object whose own `toString` is not a function. A JSON `null` message throws at `m.a` and is modelled as a parse failure.

## Findings

| source | as written | input that shows it | evidently intended | confidence | as-written member | corrected member |
|---|---|---|---|---|---|---|
| auxFunc.ts:56-58 | Built boxes get the id `final_<key>`. The click handler accepts it (`startsWith('final')`), but getElementPositionFromId only decodes ids starting with `finalized` and throws on this one | any cell, for example `(3,0,4)` with id `final_3,0,4` | ids spelled `finalized_<key>`, which pass the click test and decode back to the cell | high; not executed | Keys.FinalIdIsRejected | Keys.FinalizedIdRoundTrip |
| server/index.ts:47-52 | A message that fails validation is only logged as ignored, then still overwrites the map entry and is rebroadcast | `{"a":"fly","c":"3,0,4"}` on a map where `3,0,4` is built: `/all` drops `3,0,4` and every client receives the message | an invalid message changes nothing and is not rebroadcast | high; not executed | Server.InvalidActionUnlists | Server.HandleValidatedSpec |
| server/index.ts:50-52 | The handler writes the map entry before it formats `m.a` into the log line. When that formatting throws, the `catch` swallows the error, so the map has changed but nothing is emitted | `{"a":{"toString":0},"c":"3,0,4"}` on a map where `3,0,4` is built: `/all` drops `3,0,4`, while every client still shows it built | every change to the map reaches every client, which the corrected handler guarantees by rejecting the invalid action before writing | high; not executed | Server.UnconvertibleActionDrifts | Server.ValidatedWritesAreBroadcast |
| raycast.ts:56-67 | `normalize` gives `dy = -0` for a level gaze (rotation `x` exactly `+0`). `intbound(y, -0)` is `-Infinity` and `tDeltaY` is `0/-0`, which is `NaN`. After one Y step of zero, `tMaxY` is `NaN`, `tMaxX < tMaxY` is always false, and X is never stepped | viewer at `(0.5, 0.5, 0.5)` looking level towards `(0.6, 0, 0.8)`: every cell the ray visits has `x == 0` | treat `-0` as `0`, so the ray steps along X and Z as its direction says | high; not executed | FloatRay.NegativeZeroYNeverStepsX | RayPath.XCrossingIsStepped |
| raycast.ts:139-148 | The loop starts in `Math.floor` of the origin. For an integral coordinate with a negative direction, `intbound` gives the first crossing one whole `tDelta` later. The ray is already in the cell below, so until that crossing the loop calls back on cells one above the ray, and may target one | viewer at `(0.5, 1, 0.5)` looking towards `(0.6, -0.8, 0)`: the loop calls back on `(0, 1, 0)`, `(1, 1, 0)` and `(1, 0, 0)`, but inside the world the ray passes only through `(0, 0, 0)` and `(1, 0, 0)` | start in the cell the ray enters, one below `Math.floor` on such an axis, so every visited cell is touched by the ray | medium (needs an exactly integral coordinate); not executed | RayPath.LaggedStartLeavesRay | RayPath.RaycastCorrectedOnRay |

`Targeting` models `updateCurrent` as written, so it keeps the start of `Ray.Start`. The corrected start is `RayPath.StartCorrected`, used by `RayPath.RaycastCorrected`.
