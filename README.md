# Heatmap aggregation and fitness-service clients, modelled in Dafny

This project models the three pieces of sequential logic behind the ride
heatmap:

- **`process_gpx_files`** (`gpx_processor.dfy`, module `GpxProcessor`). For
  every parsed GPX file, every track and every track segment, consecutive
  snapped points form an undirected edge. The edge key puts the
  lexicographically smaller point text first. A map counts each edge, and
  the result is one `Segment` per distinct edge.
  - The model is imperative, like the code: one method per loop, each
    rebinding a local `map<EdgeKey, nat>` value that stands for the
    `HashMap` the code updates in place. Each loop is proved against a fold
    (`AddAll`/`Tally`) of the edge sequence that the loops visit
    (`FilesEdges`).
  - The GPX parser is a parameter `read`, which returns `None` on a parse
    failure. Snapping a waypoint to the 1e-5 grid and formatting it as
    `lat,lng` is a parameter `keyOf`.
- **`RideWithGPSService`** (`ridewithgps.dfy`, module `RideWithGps`) is a
  class over `accessToken` and `user`. It covers the logged-in state, the
  offset-paginated trip listing, the per-trip choice of track text, and the
  track fetch, which prefers points over the encoded polyline.
- **`StravaService`** (`strava.dfy`, module `Strava`) is a class over
  `accessToken` and `athlete`. It covers the logged-in state, the
  page-numbered activity listing, and the choice of polyline per activity.
- **`js.dfy`** (module `Js`) holds the JavaScript notions the clients rely on:
  - `null`/`undefined` as `Option`;
  - a thrown error as `Result`;
  - truthiness of strings and numbers;
  - `a || b` on strings.

Network round trips are replaced by the replies they produced:
- A paginated listing receives the sequence of replies to its successive
  requests.
- A track fetch receives a function from track id to reply.
- A reply's "unreachable" case stands for any error thrown while fetching or
  reading the body.
- The query of each listing request and each progress-callback argument are
  returned as sequences, so their values can be stated.

The listings loop until the server ends them. Their models therefore require,
for a logged-in client, that some reply in the given sequence ends the listing
(`FirstStop(replies) < |replies|`).

The track text RideWithGPS builds from track points is not an encoded
polyline. It is the JSON text of the `[lat, lng]` array
(`frontend/src/lib/ridewithgps.ts:209-213`, `240-241` and `299-300`), which
the model represents as the value `CoordinatesJson`.

## Model

| member | source | states |
|---|---|---|
| Js.Truthy | frontend/src/lib/ridewithgps.ts:99-101 | `!!s` for a string holds exactly when it is present and non-empty |
| Js.Or | frontend/src/lib/strava.ts:191 | `a \|\| b` is `a` when `a` is truthy and `b` otherwise, so it is truthy exactly when either operand is |
| GpxProcessor.LexLessAsymmetric | gpx_processor/src/lib.rs:33 | String `<` is asymmetric |
| GpxProcessor.LexLessTotal | gpx_processor/src/lib.rs:33 | Any two strings are equal or one is `<` the other |
| GpxProcessor.EdgeKeyOf | gpx_processor/src/lib.rs:31-33 | The key of a window holds the window's two point texts, one way round or the other, with the first ≤ the second; `(k, k)` when they are equal |
| GpxProcessor.EdgeKeySymmetric | gpx_processor/src/lib.rs:33-34 | The windows a→b and b→a increment the same key |
| GpxProcessor.EdgeKeyCanonical | gpx_processor/src/lib.rs:33 | A pair is stored as given exactly when it is already in canonical order |
| GpxProcessor.Snap | gpx_processor/src/lib.rs:25-27 | One snapped key per point, in point order |
| GpxProcessor.Windows | gpx_processor/src/lib.rs:29-33 | A sequence of n keys has max(n − 1, 0) windows; window w is the edge of keys w and w + 1 |
| GpxProcessor.SegmentsEdgesLength | gpx_processor/src/lib.rs:24-30 | The edges of a track's segments number the sum of max(len − 1, 0) over its segments |
| GpxProcessor.TracksEdgesLength | gpx_processor/src/lib.rs:23-30 | The same count, summed over the tracks of a file |
| GpxProcessor.FilesEdgesLength | gpx_processor/src/lib.rs:18-30 | The edges visited number the sum of max(len − 1, 0) over every segment of every file that parses |
| GpxProcessor.SegmentsEdgesWithin | gpx_processor/src/lib.rs:23-30 | Every edge joins two consecutive points of one single segment; no window spans two segments |
| GpxProcessor.TracksEdgesWithin | gpx_processor/src/lib.rs:23-30 | Every edge of a file joins two consecutive points of one segment of one track; no window spans two segments or two tracks |
| GpxProcessor.FilesEdgesWithin | gpx_processor/src/lib.rs:18-30 | Every edge visited comes from one segment of one track of one file that parses |
| GpxProcessor.SegmentsEdgesContain | gpx_processor/src/lib.rs:24-30 | Every window of a segment of a track is visited |
| GpxProcessor.TracksEdgesContain | gpx_processor/src/lib.rs:23-30 | Every window of every segment of a track of a file is visited |
| GpxProcessor.FilesEdgesContain | gpx_processor/src/lib.rs:18-30 | Every window of a parsed file is visited |
| GpxProcessor.WindowCounted | gpx_processor/src/lib.rs:18-35 | Every window of every segment of every track of every parsed file has its key in the map with count ≥ 1 |
| GpxProcessor.TwoSegmentsTwoEdges | gpx_processor/src/lib.rs:24-30 | Two 2-point segments give exactly their two windows; the end of the first is not joined to the start of the second |
| GpxProcessor.PairEdges | gpx_processor/src/lib.rs:29-33 | A 2-point segment has exactly one edge |
| GpxProcessor.FilesEdgesAppend | gpx_processor/src/lib.rs:18-22 | The files' edges are gathered file by file, in order |
| GpxProcessor.UnparsableFileSkipped | gpx_processor/src/lib.rs:22 | A file that does not parse contributes no edge, wherever it stands |
| GpxProcessor.Bump | gpx_processor/src/lib.rs:34 | After a window, its key is present, with its previous count (0 if it was absent) plus one |
| GpxProcessor.BumpOneKey | gpx_processor/src/lib.rs:34 | A window adds its key if needed, raises that key's count by exactly 1 and leaves every other count unchanged |
| GpxProcessor.AddAllAppend | gpx_processor/src/lib.rs:18-40 | Counting the edges of one part and then another equals counting them together |
| GpxProcessor.TallyCounts | gpx_processor/src/lib.rs:34 | A key is in the map exactly when some window produced it; its count is the number of such windows, hence ≥ 1 |
| GpxProcessor.TallyDependsOnMultiset | gpx_processor/src/lib.rs:29-35 | The counts depend only on the multiset of edges, not on the order they are visited in |
| GpxProcessor.TotalRemove | gpx_processor/src/lib.rs:42-50 | The sum of a map's counts is any one count plus the sum of the others |
| GpxProcessor.TotalBump | gpx_processor/src/lib.rs:34 | One increment raises the sum of all counts by exactly one |
| GpxProcessor.TallyTotal | gpx_processor/src/lib.rs:29-35 | The counts add up to the number of windows visited |
| GpxProcessor.SegmentReversed | gpx_processor/src/lib.rs:24-36 | A segment whose points are recorded in the opposite order gives exactly the same edge counts |
| GpxProcessor.SnapReversed | gpx_processor/src/lib.rs:25-27 | Snapping the reversed points gives the reversed point keys |
| GpxProcessor.WindowsReversed | gpx_processor/src/lib.rs:29-34 | Reversed point keys give exactly the same counts |
| GpxProcessor.WindowsReversedMultiset | gpx_processor/src/lib.rs:29-33 | The edges of reversed point keys are the same multiset as the forward edges |
| GpxProcessor.WindowReversedAt | gpx_processor/src/lib.rs:29-33 | Window w of reversed point keys is the mirror window of the forward keys |
| GpxProcessor.SegmentsSnoc | gpx_processor/src/lib.rs:42-50 | Appending an output segment adds its key to the key set and its count to the total |
| GpxProcessor.ProcessGpxFiles | gpx_processor/src/lib.rs:15-53 | The output holds one segment per distinct edge, with pairwise distinct keys and that edge's count. Every key is canonical with count ≥ 1, and the counts sum to the number of windows over all parsed files |
| GpxProcessor.CountEdges | gpx_processor/src/lib.rs:18-40 | The loop over files leaves the map equal to the count of every edge of every parsed file, all keys canonical |
| GpxProcessor.CountTracks | gpx_processor/src/lib.rs:23-38 | The loop over a file's tracks adds the counts of all their edges |
| GpxProcessor.CountSegments | gpx_processor/src/lib.rs:24-37 | The loop over a track's segments adds the counts of all their edges |
| GpxProcessor.CountWindows | gpx_processor/src/lib.rs:29-36 | The `windows(2)` loop bumps each window's key once, in order, and keeps keys canonical |
| GpxProcessor.CollectSegments | gpx_processor/src/lib.rs:42-50 | One output segment per map entry, carrying that entry's count: keys distinct, key set equal to the map's, counts summing to the map's total |
| RideWithGps.LatLng | frontend/src/lib/ridewithgps.ts:206-214 | `[y, x]` per point: same length, same order, latitude first |
| RideWithGps.EncodePolyline | frontend/src/lib/ridewithgps.ts:206-214 | The JSON text of one `[lat, lng]` pair per point, in point order, latitude from `y` and longitude from `x` |
| RideWithGps.TrackData | frontend/src/lib/ridewithgps.ts:298-305 | A track reply yields text exactly when it is a body with non-empty points or truthy encoded text. Non-empty points win and become their `[lat, lng]` pairs; otherwise the encoded text is returned as is |
| RideWithGps.TripSource | frontend/src/lib/ridewithgps.ts:232-259 | The text chosen for one trip is non-empty. Truthy encoded text is taken first, else non-empty inline points as `[lat, lng]` pairs, else (logged in, with a track id and the GPS flag) whatever the fetched track yields, else nothing |
| RideWithGps.NoTrackNoText | frontend/src/lib/ridewithgps.ts:243-258 | A trip with no encoded text, no points, and no track id or no GPS flag yields nothing, whatever the session and the track service |
| RideWithGps.FetchedTrackUsed | frontend/src/lib/ridewithgps.ts:243-251 | Logged in, a trip that has only a track id and the GPS flag takes exactly what the track fetch returns |
| RideWithGps.TripPolylines | frontend/src/lib/ridewithgps.ts:222-263 | At most one text per trip, each non-empty |
| RideWithGps.TripPolylinesAppend | frontend/src/lib/ridewithgps.ts:222-263 | Texts are produced trip by trip, preserving trip order |
| RideWithGps.TripPolylinesOne | frontend/src/lib/ridewithgps.ts:232-263 | One trip contributes exactly the text chosen for it, or nothing |
| RideWithGps.TripPolylinesOnePerTrip | frontend/src/lib/ridewithgps.ts:222-263 | When every trip has a chosen text, output i is trip i's chosen text |
| RideWithGps.TripPolylinesSkipBare | frontend/src/lib/ridewithgps.ts:257-263 | A trip for which no text is chosen contributes nothing |
| RideWithGps.OppositePreference | frontend/src/lib/ridewithgps.ts:234-241 | With both encoded text and points present, the trip listing takes the encoded text, while the track fetch takes the points |
| RideWithGps.InlineDataNeedsNoFetch | frontend/src/lib/ridewithgps.ts:234-243 | A trip carrying encoded text or points always yields a text, whatever the track service would return |
| RideWithGps.UnauthenticatedFetchYieldsNothing | frontend/src/lib/ridewithgps.ts:243-254 | Logged out, a trip that would need the track fetch yields nothing (the thrown error is caught) |
| RideWithGps.PageTrips | frontend/src/lib/ridewithgps.ts:138-139 | A page's trips are the reply's `results`, or none when `results` is absent or the request failed |
| RideWithGps.EndsListing | frontend/src/lib/ridewithgps.ts:129-160 | A failed request, a page without `results`, or a page of fewer than 100 trips ends the listing; a full page does not |
| RideWithGps.Listing | frontend/src/lib/ridewithgps.ts:129-164 | Succeeds exactly when the ending reply is a page, with all pages up to and including it concatenated. It raises AuthExpired exactly on a 401, HttpFailure carrying the status on any other HTTP error, and NetworkFailure exactly when unreachable |
| RideWithGps.FirstStop | frontend/src/lib/ridewithgps.ts:129-160 | The index of the first reply that ends the listing: every earlier reply is a full page |
| RideWithGps.RequestOffsets | frontend/src/lib/ridewithgps.ts:115-152 | Request i asks for offset 100·i with limit 100 |
| RideWithGps.StopsAt | frontend/src/lib/ridewithgps.ts:129-160 | A reply that ends the listing, reached no later than the first stop, is the first stop |
| RideWithGps.CollectedStep | frontend/src/lib/ridewithgps.ts:145-149 | Each page is appended to the trips so far, and a non-empty page reports the new running total |
| RideWithGps.ShortPageStops | frontend/src/lib/ridewithgps.ts:157-160 | A non-empty page shorter than 100 ends the listing, and its trips are the whole result |
| RideWithGps.ListingHasFullPages | frontend/src/lib/ridewithgps.ts:141-160 | A successful listing has at least 100 trips per page before the last |
| RideWithGps.CollectedAtLeast | frontend/src/lib/ridewithgps.ts:141-160 | The full pages read hold at least 100 trips each |
| RideWithGps.ProgressIncreases | frontend/src/lib/ridewithgps.ts:145-150 | Progress counts are positive and strictly increasing, and the last equals the number of trips gathered |
| RideWithGps.RideWithGpsService.constructor | frontend/src/lib/ridewithgps.ts:36-44 | Starts with the stored token, if any, and no user |
| RideWithGps.RideWithGpsService.IsAuthenticated | frontend/src/lib/ridewithgps.ts:99-101 | True exactly when the token is present and non-empty |
| RideWithGps.RideWithGpsService.GetUser | frontend/src/lib/ridewithgps.ts:104-106 | Returns the user the client holds |
| RideWithGps.RideWithGpsService.Logout | frontend/src/lib/ridewithgps.ts:313-320 | Afterwards neither token nor user remains: not authenticated, `getUser()` is null |
| RideWithGps.RideWithGpsService.ExchangeCodeForToken | frontend/src/lib/ridewithgps.ts:60-96 | True exactly when the exchange succeeds; only then is the token replaced. The user is untouched |
| RideWithGps.RideWithGpsService.FetchUserInfo | frontend/src/lib/ridewithgps.ts:323-350 | Null and no change when logged out. Otherwise a body sets and returns the user, a 401 logs out, and any other failure returns null and changes nothing |
| RideWithGps.RideWithGpsService.FetchAllTrips | frontend/src/lib/ridewithgps.ts:109-170 | Throws when logged out. Otherwise it makes one request per reply up to the first stop, at offsets 0, 100, …, and returns the concatenated pages or the stop's error. Progress reports follow each non-empty page, and a 401 logs out |
| RideWithGps.RideWithGpsService.CollectTrips | frontend/src/lib/ridewithgps.ts:114-160 | The paging loop sends exactly the requests up to the first stop, at offsets 0, 100, …, and returns the listing's outcome, with one progress report per non-empty page |
| RideWithGps.RideWithGpsService.GetTripDetail | frontend/src/lib/ridewithgps.ts:173-203 | Throws when logged out. Otherwise it returns the trip, or null on any failure; a 401 also logs out |
| RideWithGps.RideWithGpsService.GetTrackData | frontend/src/lib/ridewithgps.ts:276-310 | Throws exactly when logged out. Otherwise it prefers non-empty points (as `[lat, lng]`) over encoded text, else null |
| RideWithGps.RideWithGpsService.GetPolylinesFromTrips | frontend/src/lib/ridewithgps.ts:217-273 | Returns the chosen text of every trip, in order. Progress (i + 1, n) is reported after every trip |
| RideWithGps.RideWithGpsService.PolylineOfTrip | frontend/src/lib/ridewithgps.ts:232-259 | The loop body picks exactly the text `TripSource` chooses for the trip |
| Strava.PolylineOf | frontend/src/lib/strava.ts:191-192 | The detailed polyline when non-empty, else the summary when non-empty, else nothing; the result is never empty |
| Strava.Polylines | frontend/src/lib/strava.ts:186-199 | At most one polyline per activity, each non-empty |
| Strava.PolylinesAppend | frontend/src/lib/strava.ts:189-195 | Polylines are produced activity by activity, preserving order |
| Strava.PolylinesOnePerActivity | frontend/src/lib/strava.ts:189-195 | When every activity has a polyline, output i is activity i's polyline |
| Strava.PolylinesSkipBare | frontend/src/lib/strava.ts:191-194 | An activity with no map, or with both polylines empty or absent, contributes nothing |
| Strava.EndsListing | frontend/src/lib/strava.ts:117-130 | A failed request or an empty page ends the listing; any non-empty page, however short, does not |
| Strava.Listing | frontend/src/lib/strava.ts:117-146 | Succeeds exactly when the ending reply is a page, with the pages before it concatenated. It raises AuthExpired exactly on a 401, HttpFailure carrying the status on any other HTTP error, and NetworkFailure exactly when unreachable |
| Strava.FirstStop | frontend/src/lib/strava.ts:117-130 | The index of the first reply that ends the listing: every earlier reply is a non-empty page |
| Strava.RequestPages | frontend/src/lib/strava.ts:103-139 | Request i asks for page i + 1 with 200 per page |
| Strava.StopsAt | frontend/src/lib/strava.ts:117-130 | A reply that ends the listing, reached no later than the first stop, is the first stop |
| Strava.CollectedStep | frontend/src/lib/strava.ts:132-137 | Each page is appended to the activities so far, and a non-empty page reports the new running total |
| Strava.PagesBeforeStop | frontend/src/lib/strava.ts:128-137 | Every page before the stop holds at least one activity and produces one progress report; the last report is the total |
| Strava.ListingSize | frontend/src/lib/strava.ts:128-139 | A successful listing holds at least one activity per page consumed, with one progress report per page |
| Strava.CollectedPrepend | frontend/src/lib/strava.ts:132 | The activities of a first page come before those of all later pages |
| Strava.ShortPageContinues | frontend/src/lib/strava.ts:128-130 | A non-empty page shorter than 200 does not end the listing: the next page is fetched and appended |
| Strava.ProgressIncreases | frontend/src/lib/strava.ts:132-137 | Progress counts are positive and strictly increasing, and the last equals the number of activities gathered |
| Strava.StravaService.constructor | frontend/src/lib/strava.ts:29-32 | Starts with the stored token, if any, and no athlete |
| Strava.StravaService.IsAuthenticated | frontend/src/lib/strava.ts:87-89 | True exactly when the token is present and non-empty |
| Strava.StravaService.GetAthlete | frontend/src/lib/strava.ts:92-94 | Returns the athlete the client holds |
| Strava.StravaService.Logout | frontend/src/lib/strava.ts:202-207 | Afterwards neither token nor athlete remains: not authenticated, `getAthlete()` is null |
| Strava.StravaService.ExchangeCodeForToken | frontend/src/lib/strava.ts:49-84 | True exactly when the exchange succeeds. Then token and athlete come from the reply; otherwise nothing changes |
| Strava.StravaService.FetchAthleteInfo | frontend/src/lib/strava.ts:210-236 | Null and no change when logged out. Otherwise a body sets and returns the athlete, a 401 logs out, and any other failure returns null and changes nothing |
| Strava.StravaService.FetchAllActivities | frontend/src/lib/strava.ts:97-152 | Throws when logged out. Otherwise it requests pages 1, 2, … up to the first empty page or error, and returns the concatenated pages or that error. One progress report follows each page, and a 401 logs out |
| Strava.StravaService.CollectActivities | frontend/src/lib/strava.ts:102-142 | The paging loop requests exactly pages 1, 2, … up to the first stop and returns the listing's outcome, with one progress report per non-empty page |
| Strava.StravaService.GetActivityDetail | frontend/src/lib/strava.ts:155-183 | Throws when logged out. Otherwise it returns the activity, or null on any failure; a 401 also logs out |
| Strava.StravaService.GetPolylinesFromActivities | frontend/src/lib/strava.ts:186-199 | Returns exactly the chosen polyline of each activity that has one, in order |

## Left out

- Floating point:
  - `round` (`gpx_processor/src/lib.rs:55-57`) and the `{}` formatting of the snapped coordinates are the parameter `keyOf`.
  - Parsing the key texts back into numbers (`gpx_processor/src/lib.rs:43-46`) is not modelled. An output `Segment` carries the two key texts instead of two coordinate pairs.
- GpxProcessor.ProcessGpxFiles: counts are unbounded; the `u32` counter of the source would wrap only after 2^32 windows of one edge.
- GpxProcessor.ProcessGpxFiles: the output order comes from `HashMap` iteration and is unspecified. The model picks entries in an arbitrary order and states nothing about the order.
- `gpx::read` is the parameter `read`; GPX parsing is not part of this model.
- WASM and JavaScript interop is not modelled: `js_sys::Uint8Array` and `serde_wasm_bindgen::to_value`. Files are given as byte sequences, and the result is returned as a sequence.
- In the model, the loops of `process_gpx_files` are split into one method per loop: `CountEdges`, `CountTracks`, `CountSegments` and `CountWindows`. The final `collect` is `CollectSegments`.
- Browser and network effects are not modelled:
  - `localStorage` writes and removals;
  - `console` logging;
  - the `setTimeout` delays;
  - the URLs and headers of requests, and the token sent with them (the
    offset/limit and page/per_page parameters are modelled);
  - `getAuthUrl`;
  - the refresh token.
- The JSON text produced from `[lat, lng]` arrays is the datatype value `CoordinatesJson`; number formatting is not modelled.
- RideWithGps.RideWithGpsService.FetchAllTrips, Strava.StravaService.FetchAllActivities and RideWithGps.RideWithGpsService.GetPolylinesFromTrips each run without interleaving. In the source every `await` lets other calls run, and a concurrent logout would change the token the next request uses (sent as the text "null") or make later track fetches throw. The model fixes the client's state for the whole call, and the track service is a function of the track id, so two fetches of one id get the same reply.
- RideWithGps.RideWithGpsService.FetchAllTrips and Strava.StravaService.FetchAllActivities log out after their paging loop reports an expired token, where the source logs out inside the loop just before throwing. No request follows a 401 in either case, so the requests, the result and the final state are the same.
- RideWithGps.RideWithGpsService.FetchAllTrips and Strava.StravaService.FetchAllActivities require, when logged in, that the replies include one that ends the listing. The source would loop forever against a server that never ends it.
- The Google encoded-polyline codec (`decode_polyline_string`, `process_polylines`) is declared only in a `.d.ts` file without a body. It is not part of this model.
- RideWithGPS `encodePolyline` is never called in the source: `getPolylinesFromTrips` and `getTrackData` repeat its body inline. The model uses the one function `EncodePolyline` for all three.
- The HTTP proxy routes under `frontend/src/routes/api` are not part of this model.
- The trip and activity fields the clients pass along untouched are not modelled: distance, type, dates and elevation use.
- RideWithGps.RideWithGpsService.ExchangeCodeForToken and Strava.StravaService.ExchangeCodeForToken: the model does not distinguish the ways a token exchange can fail (HTTP status, unreadable body), because all of them return false.
