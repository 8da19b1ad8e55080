/** The RideWithGPS client: its logged-in / logged-out state, the
    offset-paginated listing of trips, and the choice of one track text per
    trip for the heatmap.

    Every network round trip is replaced by the reply it produced: a
    listing is given the sequence of replies to its successive requests, a
    track fetch is given a function from track id to reply. The request log
    and the progress-callback arguments are returned as sequences. */
module RideWithGps {
  import opened Js

  /** Trips requested per page (`limit`). */
  const Limit: nat := 100

  /** A track point: longitude `x`, latitude `y`, optional elevation `e`. */
  datatype TrackPoint = TrackPoint(x: real, y: real, e: Option<real>)

  /** A trip as listed; `trackId` and `isGps` are the untyped `track_id` and
      `is_gps` fields the client also reads (an absent `is_gps` is false). */
  datatype Trip = Trip(
    id: int,
    name: string,
    trackPoints: Option<seq<TrackPoint>>,
    trackEncoded: Option<string>,
    trackId: Option<int>,
    isGps: bool)

  datatype User = User(id: int, name: string, email: string, avatar: Option<string>)

  /** One `[lat, lng]` pair. */
  datatype Coordinate = Coordinate(lat: real, lng: real)

  /** The text handed on for one trip: an encoded polyline as received, or the
      JSON text of a `[lat, lng]` array (whose number formatting is not modelled). */
  datatype PolylineText = Encoded(text: string) | CoordinatesJson(coordinates: seq<Coordinate>)

  /** `polyline.length > 0`: JSON text of an array is at least `[]`. */
  predicate NonEmptyText(p: PolylineText) {
    match p
    case Encoded(text) => |text| > 0
    case CoordinatesJson(_) => true
  }

  /** The errors the client throws. */
  datatype RwgpsError = NotAuthenticated | AuthExpired | HttpFailure(status: int) | NetworkFailure

  datatype TokenReply = TokenGranted(accessToken: Option<string>) | TokenFailed
  datatype UserReply = UserBody(user: Option<User>) | UserHttpError(status: int) | UserUnreachable
  datatype TripsReply = TripsBody(results: Option<seq<Trip>>) | TripsHttpError(status: int) | TripsUnreachable
  datatype TripDetailReply = TripDetailBody(trip: Option<Trip>) | TripDetailHttpError(status: int) | TripDetailUnreachable
  datatype TrackReply = TrackBody(trackPoints: Option<seq<TrackPoint>>, trackEncoded: Option<string>) | TrackHttpError(status: int) | TrackUnreachable

  /** The query of one listing request. */
  datatype TripsRequest = TripsRequest(offset: nat, limit: nat)

  // ---------------------------------------------------------------------
  // Track texts

  /** `points.map(p => [p.y, p.x])`. */
  function LatLng(points: seq<TrackPoint>): (coordinates: seq<Coordinate>)
    ensures |coordinates| == |points|
    ensures forall i :: 0 <= i < |points| ==> coordinates[i] == Coordinate(points[i].y, points[i].x)
  {
    if points == [] then [] else [Coordinate(points[0].y, points[0].x)] + LatLng(points[1..])
  }

  /** `encodePolyline`: the JSON text of the `[lat, lng]` pairs. */
  function EncodePolyline(points: seq<TrackPoint>): (p: PolylineText)
    ensures p.CoordinatesJson? && |p.coordinates| == |points|
    ensures forall i :: 0 <= i < |points| ==>
      p.coordinates[i].lat == points[i].y && p.coordinates[i].lng == points[i].x
  {
    CoordinatesJson(LatLng(points))
  }

  /** What `getTrackData` returns once authenticated: the points before the
      encoded polyline, or `null`. */
  function TrackData(reply: TrackReply): (r: Option<PolylineText>)
    ensures r.Some? ==> NonEmptyText(r.value)
    ensures r.Some? <==>
      (reply.TrackBody? && ((reply.trackPoints.Some? && |reply.trackPoints.value| > 0) || Truthy(reply.trackEncoded)))
    ensures reply.TrackBody? && reply.trackPoints.Some? && |reply.trackPoints.value| > 0 ==>
      r == Some(CoordinatesJson(LatLng(reply.trackPoints.value)))
    ensures reply.TrackBody? && !(reply.trackPoints.Some? && |reply.trackPoints.value| > 0) && Truthy(reply.trackEncoded) ==>
      r == Some(Encoded(reply.trackEncoded.value))
  {
    match reply
    case TrackBody(points, encoded) =>
      if points.Some? && |points.value| > 0 then Some(EncodePolyline(points.value))
      else if Truthy(encoded) then Some(Encoded(encoded.value))
      else None
    case TrackHttpError(_) => None
    case TrackUnreachable => None
  }

  /** The text `getPolylinesFromTrips` picks for one trip: the encoded
      polyline, else the inline points, else the fetched track when the trip
      has a track id and is a GPS recording. A fetch that throws (because the
      client is not authenticated) yields nothing. */
  function TripSource(trip: Trip, authenticated: bool, tracks: int -> TrackReply): (r: Option<PolylineText>)
    ensures r.Some? ==> NonEmptyText(r.value)
    ensures r.Some? ==>
      || Truthy(trip.trackEncoded)
      || (trip.trackPoints.Some? && |trip.trackPoints.value| > 0)
      || (TruthyNumber(trip.trackId) && trip.isGps && authenticated)
    ensures Truthy(trip.trackEncoded) ==> r == Some(Encoded(trip.trackEncoded.value))
    ensures !Truthy(trip.trackEncoded) && trip.trackPoints.Some? && |trip.trackPoints.value| > 0 ==>
      r == Some(CoordinatesJson(LatLng(trip.trackPoints.value)))
    ensures (&& !Truthy(trip.trackEncoded)
             && !(trip.trackPoints.Some? && |trip.trackPoints.value| > 0)
             && TruthyNumber(trip.trackId) && trip.isGps && authenticated) ==>
      r == TrackData(tracks(trip.trackId.value))
  {
    if Truthy(trip.trackEncoded) then Some(Encoded(trip.trackEncoded.value))
    else if trip.trackPoints.Some? && |trip.trackPoints.value| > 0 then Some(EncodePolyline(trip.trackPoints.value))
    else if TruthyNumber(trip.trackId) && trip.isGps && authenticated then
      match TrackData(tracks(trip.trackId.value))
      case Some(p) => if NonEmptyText(p) then Some(p) else None
      case None => None
    else None
  }

  /** The texts `getPolylinesFromTrips` returns: at most one per trip, in trip
      order, each non-empty. */
  function TripPolylines(trips: seq<Trip>, authenticated: bool, tracks: int -> TrackReply): (r: seq<PolylineText>)
    ensures |r| <= |trips|
    ensures forall i :: 0 <= i < |r| ==> NonEmptyText(r[i])
  {
    if trips == [] then []
    else
      var init := TripPolylines(trips[..|trips| - 1], authenticated, tracks);
      match TripSource(trips[|trips| - 1], authenticated, tracks)
      case Some(p) => if NonEmptyText(p) then init + [p] else init
      case None => init
  }

  lemma TripPolylinesStep(trips: seq<Trip>, i: nat, authenticated: bool, tracks: int -> TrackReply)
    requires i < |trips|
    ensures TripPolylines(trips[..i + 1], authenticated, tracks) ==
      TripPolylines(trips[..i], authenticated, tracks) + TripPolylines([trips[i]], authenticated, tracks)
  {
    assert trips[..i + 1][..i] == trips[..i];
    assert [trips[i]][..0] == [];
  }

  /** The texts of a list of trips are those of its parts, in order. */
  lemma {:induction false} TripPolylinesAppend(a: seq<Trip>, b: seq<Trip>, authenticated: bool, tracks: int -> TrackReply)
    ensures TripPolylines(a + b, authenticated, tracks) ==
      TripPolylines(a, authenticated, tracks) + TripPolylines(b, authenticated, tracks)
    decreases |b|
  {
    if b == [] {
      assert a + b == a;
    } else {
      var b' := b[..|b| - 1];
      assert (a + b)[..|a + b| - 1] == a + b';
      TripPolylinesAppend(a, b', authenticated, tracks);
    }
  }

  /** One trip contributes exactly the text chosen for it, or nothing. */
  lemma TripPolylinesOne(trip: Trip, authenticated: bool, tracks: int -> TrackReply)
    ensures TripPolylines([trip], authenticated, tracks) ==
      if TripSource(trip, authenticated, tracks).Some? then [TripSource(trip, authenticated, tracks).value] else []
  {
    assert [trip][..0] == [];
  }

  /** When every trip has a text, there is exactly one per trip, at the
      trip's own position. */
  lemma {:induction false} TripPolylinesOnePerTrip(trips: seq<Trip>, authenticated: bool, tracks: int -> TrackReply)
    requires forall i :: 0 <= i < |trips| ==> TripSource(trips[i], authenticated, tracks).Some?
    ensures |TripPolylines(trips, authenticated, tracks)| == |trips|
    ensures forall i :: 0 <= i < |trips| ==>
      TripPolylines(trips, authenticated, tracks)[i] == TripSource(trips[i], authenticated, tracks).value
    decreases |trips|
  {
    if trips != [] {
      var init := trips[..|trips| - 1];
      TripPolylinesOnePerTrip(init, authenticated, tracks);
    }
  }

  /** A trip for which no text is chosen contributes nothing. */
  lemma {:induction false} TripPolylinesSkipBare(trips: seq<Trip>, bare: Trip, authenticated: bool, tracks: int -> TrackReply)
    requires TripSource(bare, authenticated, tracks).None?
    ensures TripPolylines(trips + [bare], authenticated, tracks) == TripPolylines(trips, authenticated, tracks)
  {
    assert (trips + [bare])[..|trips|] == trips;
  }

  /** A trip with both an encoded polyline and points: the listing uses the
      encoded polyline, a track fetch with the same fields uses the points. */
  lemma OppositePreference(trip: Trip, authenticated: bool, tracks: int -> TrackReply)
    requires Truthy(trip.trackEncoded)
    requires trip.trackPoints.Some? && |trip.trackPoints.value| > 0
    ensures TripSource(trip, authenticated, tracks) == Some(Encoded(trip.trackEncoded.value))
    ensures TrackData(TrackBody(trip.trackPoints, trip.trackEncoded)) == Some(CoordinatesJson(LatLng(trip.trackPoints.value)))
  {
  }

  /** A trip carrying its own track data never needs the track fetch. */
  lemma InlineDataNeedsNoFetch(trip: Trip, authenticated: bool, tracks: int -> TrackReply, other: int -> TrackReply)
    requires Truthy(trip.trackEncoded) || (trip.trackPoints.Some? && |trip.trackPoints.value| > 0)
    ensures TripSource(trip, authenticated, tracks) == TripSource(trip, authenticated, other)
    ensures TripSource(trip, authenticated, tracks).Some?
  {
  }

  /** A trip with neither encoded text nor points yields nothing unless it
      has a track id and is a GPS recording, whatever the session and the
      track service. */
  lemma NoTrackNoText(trip: Trip, authenticated: bool, tracks: int -> TrackReply)
    requires !Truthy(trip.trackEncoded)
    requires trip.trackPoints.None? || |trip.trackPoints.value| == 0
    requires !(TruthyNumber(trip.trackId) && trip.isGps)
    ensures TripSource(trip, authenticated, tracks) == None
  {
  }

  /** Otherwise, when logged in, such a trip takes whatever the track fetch returns. */
  lemma FetchedTrackUsed(trip: Trip, tracks: int -> TrackReply)
    requires !Truthy(trip.trackEncoded)
    requires trip.trackPoints.None? || |trip.trackPoints.value| == 0
    requires TruthyNumber(trip.trackId) && trip.isGps
    ensures TripSource(trip, true, tracks) == TrackData(tracks(trip.trackId.value))
  {
  }

  /** Without a session, trips that need the track fetch contribute nothing. */
  lemma UnauthenticatedFetchYieldsNothing(trip: Trip, tracks: int -> TrackReply)
    requires !Truthy(trip.trackEncoded)
    requires trip.trackPoints.None? || |trip.trackPoints.value| == 0
    ensures TripSource(trip, false, tracks) == None
  {
  }

  // ---------------------------------------------------------------------
  // The trip listing

  /** `data.results || []` for a successful reply. */
  function PageTrips(reply: TripsReply): (trips: seq<Trip>)
    ensures reply.TripsBody? && reply.results.Some? ==> trips == reply.results.value
    ensures !reply.TripsBody? || reply.results.None? ==> trips == []
  {
    if reply.TripsBody? then reply.results.GetOr([]) else []
  }

  /** The loop stops on an error, an empty page, or a page shorter than `limit`. */
  predicate EndsListing(reply: TripsReply)
    ensures !reply.TripsBody? ==> EndsListing(reply)
    ensures reply.TripsBody? && reply.results.None? ==> EndsListing(reply)
    ensures reply.TripsBody? && reply.results.Some? ==> (EndsListing(reply) <==> |reply.results.value| < Limit)
  {
    !reply.TripsBody? || |PageTrips(reply)| < Limit
  }

  /** The index of the first reply that ends the listing (|replies| if none). */
  function FirstStop(replies: seq<TripsReply>): (n: nat)
    ensures n <= |replies|
    ensures n < |replies| ==> EndsListing(replies[n])
    ensures forall j :: 0 <= j < n ==> !EndsListing(replies[j])
  {
    if replies == [] then 0
    else if EndsListing(replies[0]) then 0
    else 1 + FirstStop(replies[1..])
  }

  /** The trips of the given replies, concatenated in order. */
  function Collected(replies: seq<TripsReply>): seq<Trip> {
    if replies == [] then []
    else Collected(replies[..|replies| - 1]) + PageTrips(replies[|replies| - 1])
  }

  /** The running totals passed to `onProgress`: one per non-empty page. */
  function ProgressReports(replies: seq<TripsReply>): seq<nat> {
    if replies == [] then []
    else
      var init := ProgressReports(replies[..|replies| - 1]);
      if |PageTrips(replies[|replies| - 1])| > 0 then init + [|Collected(replies)|] else init
  }

  /** The outcome of `fetchAllTrips` for an authenticated client. */
  function Listing(replies: seq<TripsReply>): (r: Result<seq<Trip>, RwgpsError>)
    requires FirstStop(replies) < |replies|
    ensures r.Ok? <==> replies[FirstStop(replies)].TripsBody?
    ensures r.Ok? ==> r.value == Collected(replies[..FirstStop(replies) + 1])
    ensures r == Err(AuthExpired) <==> replies[FirstStop(replies)] == TripsHttpError(401)
    ensures r == Err(NetworkFailure) <==> replies[FirstStop(replies)] == TripsUnreachable
    ensures replies[FirstStop(replies)].TripsHttpError? && replies[FirstStop(replies)].status != 401 ==>
      r == Err(HttpFailure(replies[FirstStop(replies)].status))
  {
    Outcome(replies[FirstStop(replies)], Collected(replies[..FirstStop(replies) + 1]))
  }

  /** The result of the listing once the reply that stops it is known:
      the trips collected so far, or the error that reply raises. */
  function Outcome(stop: TripsReply, trips: seq<Trip>): Result<seq<Trip>, RwgpsError> {
    match stop
    case TripsBody(_) => Ok(trips)
    case TripsHttpError(status) => Err(if status == 401 then AuthExpired else HttpFailure(status))
    case TripsUnreachable => Err(NetworkFailure)
  }

  /** The first n listing requests: offsets 0, 100, 200, ... */
  function RequestLog(n: nat): seq<TripsRequest> {
    if n == 0 then [] else RequestLog(n - 1) + [TripsRequest(Limit * (n - 1), Limit)]
  }

  /** The offset starts at 0 and advances by `limit` per request. */
  lemma {:induction false} RequestOffsets(n: nat)
    ensures |RequestLog(n)| == n
    ensures forall i :: 0 <= i < n ==> RequestLog(n)[i] == TripsRequest(Limit * i, Limit)
  {
    if n > 0 {
      RequestOffsets(n - 1);
    }
  }

  /** A reply that ends the listing, met no later than the first stop, is the first stop. */
  lemma StopsAt(replies: seq<TripsReply>, i: nat)
    requires i <= FirstStop(replies) < |replies|
    requires EndsListing(replies[i])
    ensures i == FirstStop(replies)
  {
  }

  /** A reply that does not end the listing comes before the first stop. */
  lemma ContinuesPast(replies: seq<TripsReply>, i: nat)
    requires i <= FirstStop(replies) < |replies|
    requires !EndsListing(replies[i])
    ensures i < FirstStop(replies)
  {
  }

  lemma CollectedStep(replies: seq<TripsReply>, i: nat)
    requires i < |replies|
    ensures Collected(replies[..i + 1]) == Collected(replies[..i]) + PageTrips(replies[i])
    ensures ProgressReports(replies[..i + 1]) ==
      if |PageTrips(replies[i])| > 0 then ProgressReports(replies[..i]) + [|Collected(replies[..i + 1])|]
      else ProgressReports(replies[..i])
  {
    assert replies[..i + 1][..i] == replies[..i];
  }

  /** A non-empty page shorter than `limit` ends the listing at once: its
      trips are the whole result, whatever later replies would have been. */
  lemma ShortPageStops(page: seq<Trip>, rest: seq<TripsReply>)
    requires 0 < |page| < Limit
    ensures FirstStop([TripsBody(Some(page))] + rest) == 0
    ensures Listing([TripsBody(Some(page))] + rest) == Ok(page)
  {
    var first := TripsBody(Some(page));
    var replies := [first] + rest;
    assert EndsListing(first);
    var one := replies[..1];
    assert one == [first] && one[..0] == [];
    assert Collected(one) == Collected(one[..0]) + PageTrips(first) == page;
  }

  /** Pages before the last are full, so every page but the last one adds
      `limit` trips or more. */
  lemma {:induction false} ListingHasFullPages(replies: seq<TripsReply>)
    requires FirstStop(replies) < |replies|
    requires Listing(replies).Ok?
    ensures |Listing(replies).value| >= Limit * FirstStop(replies)
  {
    var stop := FirstStop(replies);
    CollectedAtLeast(replies, stop);
    CollectedStep(replies, stop);
  }

  lemma {:induction false} CollectedAtLeast(replies: seq<TripsReply>, n: nat)
    requires n <= |replies|
    requires forall j :: 0 <= j < n ==> !EndsListing(replies[j])
    ensures |Collected(replies[..n])| >= Limit * n
    decreases n
  {
    if n > 0 {
      CollectedAtLeast(replies, n - 1);
      CollectedStep(replies, n - 1);
    }
  }

  /** The progress values strictly increase and end at the number of trips. */
  lemma {:induction false} ProgressIncreases(replies: seq<TripsReply>)
    ensures forall i, j :: 0 <= i < j < |ProgressReports(replies)| ==> ProgressReports(replies)[i] < ProgressReports(replies)[j]
    ensures forall i :: 0 <= i < |ProgressReports(replies)| ==> 0 < ProgressReports(replies)[i] <= |Collected(replies)|
    ensures ProgressReports(replies) != [] ==> ProgressReports(replies)[|ProgressReports(replies)| - 1] == |Collected(replies)|
    decreases |replies|
  {
    if replies != [] {
      var init := replies[..|replies| - 1];
      ProgressIncreases(init);
    }
  }

  // ---------------------------------------------------------------------
  // The client

  class RideWithGpsService {
    var accessToken: Option<string>
    var user: Option<User>

    /** Starts with the token kept in local storage, if any, and no user. */
    constructor (stored: Option<string>)
      ensures accessToken == stored && user == None
    {
      accessToken := stored;
      user := None;
    }

    /** `!!this.accessToken`. */
    function IsAuthenticated(): (b: bool)
      reads this
      ensures b <==> accessToken.Some? && |accessToken.value| > 0
    {
      Truthy(accessToken)
    }

    function GetUser(): (u: Option<User>)
      reads this
      ensures u == user
    {
      user
    }

    method Logout()
      modifies this
      ensures accessToken == None && user == None
      ensures !IsAuthenticated() && GetUser() == None
    {
      accessToken := None;
      user := None;
    }

    /** Stores the granted token; a failed exchange returns false and changes nothing. */
    method ExchangeCodeForToken(code: string, reply: TokenReply) returns (ok: bool)
      modifies this
      ensures ok <==> reply.TokenGranted?
      ensures accessToken == (if ok then reply.accessToken else old(accessToken))
      ensures user == old(user)
    {
      match reply
      case TokenGranted(token) =>
        accessToken := token;
        ok := true;
      case TokenFailed =>
        ok := false;
    }

    /** `fetchUserInfo`: a 401 logs out; any other failure returns null. */
    method FetchUserInfo(reply: UserReply) returns (u: Option<User>)
      modifies this
      ensures !old(IsAuthenticated()) ==> u == None && unchanged(this)
      ensures old(IsAuthenticated()) && reply.UserBody? ==>
        u == reply.user && user == reply.user && accessToken == old(accessToken)
      ensures old(IsAuthenticated()) && reply == UserHttpError(401) ==>
        u == None && accessToken == None && user == None
      ensures old(IsAuthenticated()) && !reply.UserBody? && reply != UserHttpError(401) ==>
        u == None && unchanged(this)
    {
      if !IsAuthenticated() {
        return None;
      }
      match reply
      case UserBody(body) =>
        user := body;
        u := user;
      case UserHttpError(status) =>
        if status == 401 {
          Logout();
        }
        u := None;
      case UserUnreachable =>
        u := None;
    }

    /** `fetchAllTrips`: request pages at offsets 0, 100, 200, ... and append
        them until an empty or short page; a 401 logs out. `replies[i]` is the
        reply to the i-th request. */
    method FetchAllTrips(replies: seq<TripsReply>)
      returns (r: Result<seq<Trip>, RwgpsError>, requests: seq<TripsRequest>, progress: seq<nat>)
      requires IsAuthenticated() ==> FirstStop(replies) < |replies|
      modifies this
      ensures !old(IsAuthenticated()) ==> r == Err(NotAuthenticated) && requests == [] && progress == []
      ensures old(IsAuthenticated()) ==>
        && |requests| == FirstStop(replies) + 1
        && requests == RequestLog(|requests|)
        && r == Listing(replies)
        && progress == ProgressReports(replies[..|requests|])
      ensures if old(IsAuthenticated()) && replies[FirstStop(replies)] == TripsHttpError(401)
        then accessToken == None && user == None
        else accessToken == old(accessToken) && user == old(user)
    {
      if !IsAuthenticated() {
        return Err(NotAuthenticated), [], [];
      }
      r, requests, progress := CollectTrips(replies);
      if r == Err(AuthExpired) {
        Logout();
      }
    }

    /** The paging loop of `fetchAllTrips`: the requests it sends, the pages
        it appends and the progress it reports, up to the reply that stops
        it. A 401 raises `AuthExpired`, on which the caller logs out. */
    method CollectTrips(replies: seq<TripsReply>)
      returns (r: Result<seq<Trip>, RwgpsError>, requests: seq<TripsRequest>, progress: seq<nat>)
      requires FirstStop(replies) < |replies|
      ensures |requests| == FirstStop(replies) + 1
      ensures requests == RequestLog(|requests|)
      ensures r == Listing(replies)
      ensures progress == ProgressReports(replies[..|requests|])
    {
      requests, progress := [], [];
      var allTrips: seq<Trip> := [];
      var offset: nat := 0;
      ghost var stop := FirstStop(replies);
      while true
        invariant |requests| <= stop
        invariant offset == Limit * |requests|
        invariant requests == RequestLog(|requests|)
        invariant allTrips == Collected(replies[..|requests|])
        invariant progress == ProgressReports(replies[..|requests|])
        decreases stop - |requests|
      {
        var n := |requests|;
        var reply := replies[n];
        CollectedStep(replies, n);
        requests := requests + [TripsRequest(offset, Limit)];
        assert requests == RequestLog(n + 1);
        match reply
        case TripsHttpError(status) =>
          StopsAt(replies, n);
          r := Err(if status == 401 then AuthExpired else HttpFailure(status));
          return;
        case TripsUnreachable =>
          StopsAt(replies, n);
          r := Err(NetworkFailure);
          return;
        case TripsBody(results) =>
          var trips := results.GetOr([]);
          if |trips| == 0 {
            StopsAt(replies, n);
            assert allTrips == Collected(replies[..|requests|]);
            break;
          }
          allTrips := allTrips + trips;
          progress := progress + [|allTrips|];
          offset := offset + Limit;
          if |trips| < Limit {
            StopsAt(replies, n);
            assert allTrips == Collected(replies[..|requests|]);
            break;
          }
          ContinuesPast(replies, n);
      }
      r := Ok(allTrips);
    }

    /** `getTripDetail`: throws when not authenticated; a 401 logs out, and
        every failure is caught and gives null. */
    method GetTripDetail(tripId: int, reply: TripDetailReply) returns (r: Result<Option<Trip>, RwgpsError>)
      modifies this
      ensures !old(IsAuthenticated()) ==> r == Err(NotAuthenticated) && unchanged(this)
      ensures old(IsAuthenticated()) ==> r == Ok(if reply.TripDetailBody? then reply.trip else None)
      ensures if old(IsAuthenticated()) && reply == TripDetailHttpError(401)
        then accessToken == None && user == None
        else unchanged(this)
    {
      if !IsAuthenticated() {
        return Err(NotAuthenticated);
      }
      match reply
      case TripDetailBody(trip) =>
        r := Ok(trip);
      case TripDetailHttpError(status) =>
        if status == 401 {
          Logout();
        }
        r := Ok(None);
      case TripDetailUnreachable =>
        r := Ok(None);
    }

    /** `getTrackData`: throws when not authenticated, otherwise prefers the
        track points over the encoded polyline. */
    method GetTrackData(trackId: int, tracks: int -> TrackReply) returns (r: Result<Option<PolylineText>, RwgpsError>)
      ensures r.Err? <==> !IsAuthenticated()
      ensures r.Err? ==> r.error == NotAuthenticated
      ensures r.Ok? ==> r.value == TrackData(tracks(trackId))
    {
      if !IsAuthenticated() {
        return Err(NotAuthenticated);
      }
      var reply := tracks(trackId);
      match reply
      case TrackBody(points, encoded) =>
        if points.Some? && |points.value| > 0 {
          r := Ok(Some(EncodePolyline(points.value)));
        } else if Truthy(encoded) {
          r := Ok(Some(Encoded(encoded.value)));
        } else {
          r := Ok(None);
        }
      case TrackHttpError(_) =>
        r := Ok(None);
      case TrackUnreachable =>
        r := Ok(None);
    }

    /** `getPolylinesFromTrips`: one text per trip that has one, in order,
        reporting progress (i + 1, n) after every trip. */
    method GetPolylinesFromTrips(trips: seq<Trip>, tracks: int -> TrackReply)
      returns (polylines: seq<PolylineText>, progress: seq<(nat, nat)>)
      ensures polylines == TripPolylines(trips, IsAuthenticated(), tracks)
      ensures |progress| == |trips|
      ensures forall i :: 0 <= i < |trips| ==> progress[i] == (i + 1, |trips|)
    {
      polylines, progress := [], [];
      for i := 0 to |trips|
        invariant polylines == TripPolylines(trips[..i], IsAuthenticated(), tracks)
        invariant |progress| == i
        invariant forall j :: 0 <= j < i ==> progress[j] == (j + 1, |trips|)
      {
        var polyline := PolylineOfTrip(trips[i], tracks);
        if polyline.Some? && NonEmptyText(polyline.value) {
          polylines := polylines + [polyline.value];
        }
        progress := progress + [(i + 1, |trips|)];
        TripPolylinesStep(trips, i, IsAuthenticated(), tracks);
      }
      assert trips[..|trips|] == trips;
    }

    /** The body of the loop in `getPolylinesFromTrips` for one trip. */
    method PolylineOfTrip(trip: Trip, tracks: int -> TrackReply) returns (polyline: Option<PolylineText>)
      ensures polyline == TripSource(trip, IsAuthenticated(), tracks)
    {
      polyline := None;
      if Truthy(trip.trackEncoded) {
        polyline := Some(Encoded(trip.trackEncoded.value));
      } else if trip.trackPoints.Some? && |trip.trackPoints.value| > 0 {
        polyline := Some(EncodePolyline(trip.trackPoints.value));
      } else if TruthyNumber(trip.trackId) && trip.isGps {
        var trackData := GetTrackData(trip.trackId.value, tracks);
        if trackData.Ok? && trackData.value.Some? && NonEmptyText(trackData.value.value) {
          polyline := trackData.value;
        }
      }
    }
  }
}
