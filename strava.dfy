/** The Strava client: its logged-in / logged-out state, the page-numbered
    listing of activities, and the choice of one polyline per activity for
    the heatmap.

    Every network round trip is replaced by the reply it produced: a
    listing is given the sequence of replies to its successive requests
    (`replies[i]` answers the i-th request). The request log and the
    progress-callback arguments are returned as sequences. */
module Strava {
  import opened Js

  /** Activities requested per page (`per_page`). */
  const PerPage: nat := 200

  /** The `map` object of an activity; either polyline may be absent. */
  datatype ActivityMap = ActivityMap(polyline: Option<string>, summaryPolyline: Option<string>)

  /** An activity as listed (distance, type and start date are carried along
      untouched by the client and are not modelled). */
  datatype Activity = Activity(id: int, name: string, routeMap: Option<ActivityMap>)

  datatype Athlete = Athlete(id: int, firstname: string, lastname: string, profile: string)

  /** The errors the client throws. */
  datatype StravaError = NotAuthenticated | AuthExpired | HttpFailure(status: int) | NetworkFailure

  datatype TokenReply = TokenGranted(accessToken: Option<string>, athlete: Option<Athlete>) | TokenFailed
  datatype AthleteReply = AthleteBody(athlete: Option<Athlete>) | AthleteHttpError(status: int) | AthleteUnreachable
  datatype ActivitiesReply = ActivitiesBody(activities: seq<Activity>) | ActivitiesHttpError(status: int) | ActivitiesUnreachable
  datatype ActivityDetailReply = ActivityDetailBody(activity: Option<Activity>) | ActivityDetailHttpError(status: int) | ActivityDetailUnreachable

  /** The query of one listing request. */
  datatype ActivitiesRequest = ActivitiesRequest(page: nat, perPage: nat)

  // ---------------------------------------------------------------------
  // Polylines

  /** The polyline `getPolylinesFromActivities` keeps for one activity: the
      detailed polyline when it is non-empty, else the summary polyline when
      that is non-empty, else none. */
  function PolylineOf(a: Activity): (r: Option<string>)
    ensures r.Some? ==> |r.value| > 0
    ensures r.Some? <==> a.routeMap.Some? && (Truthy(a.routeMap.value.polyline) || Truthy(a.routeMap.value.summaryPolyline))
    ensures r.Some? && Truthy(a.routeMap.value.polyline) ==> r.value == a.routeMap.value.polyline.value
    ensures r.Some? && !Truthy(a.routeMap.value.polyline) ==> r.value == a.routeMap.value.summaryPolyline.value
  {
    var p := if a.routeMap.Some? then Or(a.routeMap.value.polyline, a.routeMap.value.summaryPolyline) else None;
    if Truthy(p) then Some(p.value) else None
  }

  /** The polylines of a list of activities: at most one per activity, in
      activity order, each non-empty. */
  function Polylines(activities: seq<Activity>): (r: seq<string>)
    ensures |r| <= |activities|
    ensures forall i :: 0 <= i < |r| ==> |r[i]| > 0
  {
    if activities == [] then []
    else
      var init := Polylines(activities[..|activities| - 1]);
      match PolylineOf(activities[|activities| - 1])
      case Some(p) => init + [p]
      case None => init
  }

  lemma PolylinesStep(activities: seq<Activity>, i: nat)
    requires i < |activities|
    ensures Polylines(activities[..i + 1]) == Polylines(activities[..i]) + Polylines([activities[i]])
  {
    assert activities[..i + 1][..i] == activities[..i];
    assert [activities[i]][..0] == [];
  }

  /** The polylines of a list of activities are those of its parts, in order. */
  lemma {:induction false} PolylinesAppend(a: seq<Activity>, b: seq<Activity>)
    ensures Polylines(a + b) == Polylines(a) + Polylines(b)
    decreases |b|
  {
    if b == [] {
      assert a + b == a;
    } else {
      var b' := b[..|b| - 1];
      assert (a + b)[..|a + b| - 1] == a + b';
      PolylinesAppend(a, b');
    }
  }

  /** When every activity has a polyline, there is exactly one per activity,
      at the activity's own position. */
  lemma {:induction false} PolylinesOnePerActivity(activities: seq<Activity>)
    requires forall i :: 0 <= i < |activities| ==> PolylineOf(activities[i]).Some?
    ensures |Polylines(activities)| == |activities|
    ensures forall i :: 0 <= i < |activities| ==> Polylines(activities)[i] == PolylineOf(activities[i]).value
    decreases |activities|
  {
    if activities != [] {
      var init := activities[..|activities| - 1];
      PolylinesOnePerActivity(init);
    }
  }

  /** An activity without any non-empty polyline contributes nothing. */
  lemma {:induction false} PolylinesSkipBare(activities: seq<Activity>, bare: Activity)
    requires PolylineOf(bare).None?
    ensures Polylines(activities + [bare]) == Polylines(activities)
  {
    assert (activities + [bare])[..|activities|] == activities;
  }

  // ---------------------------------------------------------------------
  // The activity listing

  /** The loop stops on an error or an empty page; a short page does not stop it. */
  predicate EndsListing(reply: ActivitiesReply)
    ensures !reply.ActivitiesBody? ==> EndsListing(reply)
    ensures reply.ActivitiesBody? ==> (EndsListing(reply) <==> |reply.activities| == 0)
  {
    !reply.ActivitiesBody? || |reply.activities| == 0
  }

  /** The activities of a reply that continues the listing. */
  function PageActivities(reply: ActivitiesReply): seq<Activity> {
    if reply.ActivitiesBody? then reply.activities else []
  }

  /** The index of the first reply that ends the listing (|replies| if none). */
  function FirstStop(replies: seq<ActivitiesReply>): (n: nat)
    ensures n <= |replies|
    ensures n < |replies| ==> EndsListing(replies[n])
    ensures forall j :: 0 <= j < n ==> !EndsListing(replies[j])
  {
    if replies == [] then 0
    else if EndsListing(replies[0]) then 0
    else 1 + FirstStop(replies[1..])
  }

  /** The activities of the given replies, concatenated in order. */
  function Collected(replies: seq<ActivitiesReply>): seq<Activity> {
    if replies == [] then []
    else Collected(replies[..|replies| - 1]) + PageActivities(replies[|replies| - 1])
  }

  /** The running totals passed to `onProgress`: one per non-empty page. */
  function ProgressReports(replies: seq<ActivitiesReply>): seq<nat> {
    if replies == [] then []
    else
      var init := ProgressReports(replies[..|replies| - 1]);
      if |PageActivities(replies[|replies| - 1])| > 0 then init + [|Collected(replies)|] else init
  }

  /** The outcome of `fetchAllActivities` for an authenticated client. */
  function Listing(replies: seq<ActivitiesReply>): (r: Result<seq<Activity>, StravaError>)
    requires FirstStop(replies) < |replies|
    ensures r.Ok? <==> replies[FirstStop(replies)].ActivitiesBody?
    ensures r.Ok? ==> r.value == Collected(replies[..FirstStop(replies)])
    ensures r == Err(AuthExpired) <==> replies[FirstStop(replies)] == ActivitiesHttpError(401)
    ensures r == Err(NetworkFailure) <==> replies[FirstStop(replies)] == ActivitiesUnreachable
    ensures replies[FirstStop(replies)].ActivitiesHttpError? && replies[FirstStop(replies)].status != 401 ==>
      r == Err(HttpFailure(replies[FirstStop(replies)].status))
  {
    Outcome(replies[FirstStop(replies)], Collected(replies[..FirstStop(replies)]))
  }

  /** The result of the listing once the reply that stops it is known:
      the activities collected so far, or the error that reply raises. */
  function Outcome(stop: ActivitiesReply, activities: seq<Activity>): Result<seq<Activity>, StravaError> {
    match stop
    case ActivitiesBody(_) => Ok(activities)
    case ActivitiesHttpError(status) => Err(if status == 401 then AuthExpired else HttpFailure(status))
    case ActivitiesUnreachable => Err(NetworkFailure)
  }

  /** The first n listing requests: pages 1, 2, 3, ... of 200. */
  function RequestLog(n: nat): seq<ActivitiesRequest> {
    if n == 0 then [] else RequestLog(n - 1) + [ActivitiesRequest(n, PerPage)]
  }

  /** Page numbers start at 1 and advance by one per request. */
  lemma {:induction false} RequestPages(n: nat)
    ensures |RequestLog(n)| == n
    ensures forall i :: 0 <= i < n ==> RequestLog(n)[i] == ActivitiesRequest(i + 1, PerPage)
  {
    if n > 0 {
      RequestPages(n - 1);
    }
  }

  /** A reply that ends the listing, met no later than the first stop, is the first stop. */
  lemma StopsAt(replies: seq<ActivitiesReply>, i: nat)
    requires i <= FirstStop(replies) < |replies|
    requires EndsListing(replies[i])
    ensures i == FirstStop(replies)
  {
  }

  /** A reply that does not end the listing comes before the first stop. */
  lemma ContinuesPast(replies: seq<ActivitiesReply>, i: nat)
    requires i <= FirstStop(replies) < |replies|
    requires !EndsListing(replies[i])
    ensures i < FirstStop(replies)
  {
  }

  lemma CollectedStep(replies: seq<ActivitiesReply>, i: nat)
    requires i < |replies|
    ensures Collected(replies[..i + 1]) == Collected(replies[..i]) + PageActivities(replies[i])
    ensures ProgressReports(replies[..i + 1]) ==
      if |PageActivities(replies[i])| > 0 then ProgressReports(replies[..i]) + [|Collected(replies[..i + 1])|]
      else ProgressReports(replies[..i])
  {
    assert replies[..i + 1][..i] == replies[..i];
  }

  /** Every page before the stop is non-empty: the listing holds at least
      one activity per page it consumed, and there is one progress report per
      such page, the last being the total. */
  lemma {:induction false} PagesBeforeStop(replies: seq<ActivitiesReply>, n: nat)
    requires n <= FirstStop(replies)
    ensures |Collected(replies[..n])| >= n
    ensures |ProgressReports(replies[..n])| == n
    ensures n > 0 ==> ProgressReports(replies[..n])[n - 1] == |Collected(replies[..n])|
    decreases n
  {
    if n > 0 {
      PagesBeforeStop(replies, n - 1);
      CollectedStep(replies, n - 1);
    }
  }

  /** A successful listing has at least as many activities as full pages it read. */
  lemma ListingSize(replies: seq<ActivitiesReply>)
    requires FirstStop(replies) < |replies|
    requires Listing(replies).Ok?
    ensures |Listing(replies).value| >= FirstStop(replies)
    ensures |ProgressReports(replies[..FirstStop(replies)])| == FirstStop(replies)
  {
    PagesBeforeStop(replies, FirstStop(replies));
  }

  lemma {:induction false} CollectedPrepend(first: ActivitiesReply, rest: seq<ActivitiesReply>)
    ensures Collected([first] + rest) == PageActivities(first) + Collected(rest)
    decreases |rest|
  {
    if rest == [] {
      assert [first][..0] == [];
    } else {
      var all, init, last := [first] + rest, rest[..|rest| - 1], rest[|rest| - 1];
      assert Collected(all) == Collected([first] + init) + PageActivities(last) by {
        assert all[..|all| - 1] == [first] + init;
      }
      CollectedPrepend(first, init);
    }
  }

  /** A short page does not end the listing: after a non-empty page of fewer
      than 200 activities the next page is still requested, and the page is
      followed by whatever the remaining replies list. */
  lemma ShortPageContinues(page: seq<Activity>, rest: seq<ActivitiesReply>)
    requires 0 < |page| < PerPage
    requires FirstStop(rest) < |rest|
    ensures FirstStop([ActivitiesBody(page)] + rest) == FirstStop(rest) + 1
    ensures Listing([ActivitiesBody(page)] + rest).Ok? <==> Listing(rest).Ok?
    ensures Listing(rest).Ok? ==> Listing([ActivitiesBody(page)] + rest).value == page + Listing(rest).value
    ensures Listing(rest).Err? ==> Listing([ActivitiesBody(page)] + rest) == Listing(rest)
  {
    var first := ActivitiesBody(page);
    var stop := FirstStopPrepend(first, rest);
    if rest[stop].ActivitiesBody? {
      ListingPrependOk(first, rest);
    } else {
      ListingPrependErr(first, rest);
    }
  }

  /** A reply that continues the listing moves the first stop one place on. */
  lemma FirstStopPrepend(first: ActivitiesReply, rest: seq<ActivitiesReply>) returns (stop: nat)
    requires !EndsListing(first)
    ensures stop == FirstStop(rest)
    ensures FirstStop([first] + rest) == stop + 1
  {
    assert ([first] + rest)[1..] == rest;
    stop := FirstStop(rest);
  }

  lemma ListingPrependOk(first: ActivitiesReply, rest: seq<ActivitiesReply>)
    requires !EndsListing(first)
    requires FirstStop(rest) < |rest| && rest[FirstStop(rest)].ActivitiesBody?
    ensures Listing([first] + rest) == Ok(PageActivities(first) + Listing(rest).value)
  {
    var stop := FirstStopPrepend(first, rest);
    PrefixPrepend(first, rest, stop);
  }

  /** The replies up to and including position n + 1 of [first] + rest are
      first followed by those of rest up to position n. */
  lemma PrefixPrepend(first: ActivitiesReply, rest: seq<ActivitiesReply>, n: nat)
    requires n < |rest|
    ensures ([first] + rest)[n + 1] == rest[n]
    ensures Collected(([first] + rest)[..n + 1]) == PageActivities(first) + Collected(rest[..n])
  {
    assert ([first] + rest)[..n + 1] == [first] + rest[..n];
    CollectedPrepend(first, rest[..n]);
  }

  lemma ListingPrependErr(first: ActivitiesReply, rest: seq<ActivitiesReply>)
    requires !EndsListing(first)
    requires FirstStop(rest) < |rest| && !rest[FirstStop(rest)].ActivitiesBody?
    ensures FirstStop([first] + rest) == FirstStop(rest) + 1
    ensures Listing([first] + rest) == Listing(rest)
  {
    var stop := FirstStopPrepend(first, rest);
    assert ([first] + rest)[stop + 1] == rest[stop];
  }

  /** The progress values strictly increase and end at the number of activities. */
  lemma {:induction false} ProgressIncreases(replies: seq<ActivitiesReply>)
    ensures forall i, j :: 0 <= i < j < |ProgressReports(replies)| ==> ProgressReports(replies)[i] < ProgressReports(replies)[j]
    ensures forall i :: 0 <= i < |ProgressReports(replies)| ==> 0 < ProgressReports(replies)[i] <= |Collected(replies)|
    ensures ProgressReports(replies) != [] ==> ProgressReports(replies)[|ProgressReports(replies)| - 1] == |Collected(replies)|
    decreases |replies|
  {
    if replies != [] {
      var init := replies[..|replies| - 1];
      ProgressIncreases(init);
    }
  }

  // ---------------------------------------------------------------------
  // The client

  class StravaService {
    var accessToken: Option<string>
    var athlete: Option<Athlete>

    /** Starts with the token kept in local storage, if any, and no athlete. */
    constructor (stored: Option<string>)
      ensures accessToken == stored && athlete == None
    {
      accessToken := stored;
      athlete := None;
    }

    /** `!!this.accessToken`. */
    function IsAuthenticated(): (b: bool)
      reads this
      ensures b <==> accessToken.Some? && |accessToken.value| > 0
    {
      Truthy(accessToken)
    }

    function GetAthlete(): (a: Option<Athlete>)
      reads this
      ensures a == athlete
    {
      athlete
    }

    method Logout()
      modifies this
      ensures accessToken == None && athlete == None
      ensures !IsAuthenticated() && GetAthlete() == None
    {
      accessToken := None;
      athlete := None;
    }

    /** Stores the granted token and the athlete sent with it; a failed
        exchange returns false and changes nothing. */
    method ExchangeCodeForToken(code: string, reply: TokenReply) returns (ok: bool)
      modifies this
      ensures ok <==> reply.TokenGranted?
      ensures ok ==> accessToken == reply.accessToken && athlete == reply.athlete
      ensures !ok ==> unchanged(this)
    {
      match reply
      case TokenGranted(token, who) =>
        accessToken := token;
        athlete := who;
        ok := true;
      case TokenFailed =>
        ok := false;
    }

    /** `fetchAthleteInfo`: a 401 logs out; any other failure returns null. */
    method FetchAthleteInfo(reply: AthleteReply) returns (a: Option<Athlete>)
      modifies this
      ensures !old(IsAuthenticated()) ==> a == None && unchanged(this)
      ensures old(IsAuthenticated()) && reply.AthleteBody? ==>
        a == reply.athlete && athlete == reply.athlete && accessToken == old(accessToken)
      ensures old(IsAuthenticated()) && reply == AthleteHttpError(401) ==>
        a == None && accessToken == None && athlete == None
      ensures old(IsAuthenticated()) && !reply.AthleteBody? && reply != AthleteHttpError(401) ==>
        a == None && unchanged(this)
    {
      if !IsAuthenticated() {
        return None;
      }
      match reply
      case AthleteBody(body) =>
        athlete := body;
        a := athlete;
      case AthleteHttpError(status) =>
        if status == 401 {
          Logout();
        }
        a := None;
      case AthleteUnreachable =>
        a := None;
    }

    /** `fetchAllActivities`: request pages 1, 2, 3, ... of 200 and append
        them until an empty page; a 401 logs out. `replies[i]` is the reply to
        the i-th request. */
    method FetchAllActivities(replies: seq<ActivitiesReply>)
      returns (r: Result<seq<Activity>, StravaError>, requests: seq<ActivitiesRequest>, progress: seq<nat>)
      requires IsAuthenticated() ==> FirstStop(replies) < |replies|
      modifies this
      ensures !old(IsAuthenticated()) ==> r == Err(NotAuthenticated) && requests == [] && progress == []
      ensures old(IsAuthenticated()) ==>
        && |requests| == FirstStop(replies) + 1
        && requests == RequestLog(|requests|)
        && r == Listing(replies)
        && progress == ProgressReports(replies[..FirstStop(replies)])
      ensures if old(IsAuthenticated()) && replies[FirstStop(replies)] == ActivitiesHttpError(401)
        then accessToken == None && athlete == None
        else accessToken == old(accessToken) && athlete == old(athlete)
    {
      if !IsAuthenticated() {
        return Err(NotAuthenticated), [], [];
      }
      r, requests, progress := CollectActivities(replies);
      if r == Err(AuthExpired) {
        Logout();
      }
    }

    /** The paging loop of `fetchAllActivities`: the pages it requests, the
        activities it appends and the progress it reports, up to the reply
        that stops it. A 401 raises `AuthExpired`, on which the caller logs
        out. */
    method CollectActivities(replies: seq<ActivitiesReply>)
      returns (r: Result<seq<Activity>, StravaError>, requests: seq<ActivitiesRequest>, progress: seq<nat>)
      requires FirstStop(replies) < |replies|
      ensures |requests| == FirstStop(replies) + 1
      ensures requests == RequestLog(|requests|)
      ensures r == Listing(replies)
      ensures progress == ProgressReports(replies[..FirstStop(replies)])
    {
      requests, progress := [], [];
      var allActivities: seq<Activity> := [];
      var page: nat := 1;
      ghost var stop := FirstStop(replies);
      while true
        invariant |requests| <= stop
        invariant page == |requests| + 1
        invariant requests == RequestLog(|requests|)
        invariant allActivities == Collected(replies[..|requests|])
        invariant progress == ProgressReports(replies[..|requests|])
        decreases stop - |requests|
      {
        var n := |requests|;
        var reply := replies[n];
        CollectedStep(replies, n);
        requests := requests + [ActivitiesRequest(page, PerPage)];
        assert requests == RequestLog(n + 1);
        match reply
        case ActivitiesHttpError(status) =>
          StopsAt(replies, n);
          r := Err(if status == 401 then AuthExpired else HttpFailure(status));
          return;
        case ActivitiesUnreachable =>
          StopsAt(replies, n);
          r := Err(NetworkFailure);
          return;
        case ActivitiesBody(activities) =>
          if |activities| == 0 {
            StopsAt(replies, n);
            break;
          }
          allActivities := allActivities + activities;
          progress := progress + [|allActivities|];
          page := page + 1;
          ContinuesPast(replies, n);
      }
      r := Ok(allActivities);
    }

    /** `getActivityDetail`: throws when not authenticated; a 401 logs out,
        and every failure is caught and gives null. */
    method GetActivityDetail(activityId: int, reply: ActivityDetailReply) returns (r: Result<Option<Activity>, StravaError>)
      modifies this
      ensures !old(IsAuthenticated()) ==> r == Err(NotAuthenticated) && unchanged(this)
      ensures old(IsAuthenticated()) ==> r == Ok(if reply.ActivityDetailBody? then reply.activity else None)
      ensures if old(IsAuthenticated()) && reply == ActivityDetailHttpError(401)
        then accessToken == None && athlete == None
        else unchanged(this)
    {
      if !IsAuthenticated() {
        return Err(NotAuthenticated);
      }
      match reply
      case ActivityDetailBody(activity) =>
        r := Ok(activity);
      case ActivityDetailHttpError(status) =>
        if status == 401 {
          Logout();
        }
        r := Ok(None);
      case ActivityDetailUnreachable =>
        r := Ok(None);
    }

    /** `getPolylinesFromActivities`: one polyline per activity that has one, in order. */
    method GetPolylinesFromActivities(activities: seq<Activity>) returns (polylines: seq<string>)
      ensures polylines == Polylines(activities)
    {
      polylines := [];
      for i := 0 to |activities|
        invariant polylines == Polylines(activities[..i])
      {
        var activity := activities[i];
        var polyline := if activity.routeMap.Some? then Or(activity.routeMap.value.polyline, activity.routeMap.value.summaryPolyline) else None;
        if polyline.Some? && |polyline.value| > 0 {
          polylines := polylines + [polyline.value];
        }
        PolylinesStep(activities, i);
      }
      assert activities[..|activities|] == activities;
    }
  }
}
