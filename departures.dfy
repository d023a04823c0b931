/** The stages of the departure extraction: resolving names to identifiers,
    grouping trips by service, joining services with calendar dates,
    inverting the date map and collecting the departures at a stop. Every
    stage scans its table once, row by row, into a local accumulator. */
module Departures {
  import opened Results
  import opened Tables
  import opened Dates

  /** `member` belongs to the set `groups` keeps under `key`. */
  predicate InGroup(groups: map<string, set<string>>, key: string, member: string) {
    key in groups && member in groups[key]
  }

  // ---------------------------------------------------------------------
  // Route lookup

  predicate RoutesShape(routes: Table) {
    HasColumn(routes, "route_id") && HasColumn(routes, "route_short_name")
  }

  predicate RouteNamed(routes: Table, i: int, shortName: string)
    requires RoutesShape(routes)
  {
    0 <= i < |routes.rows| && Cell(routes, i, "route_short_name") == shortName
  }

  /** `routeId` is the id of the first route row named `shortName`. */
  ghost predicate FirstRoute(routes: Table, shortName: string, routeId: string)
    requires RoutesShape(routes)
  {
    exists i :: && RouteNamed(routes, i, shortName)
                && (forall j :: 0 <= j < i ==> !RouteNamed(routes, j, shortName))
                && routeId == Cell(routes, i, "route_id")
  }

  /** Only one id can be the first route's. */
  lemma FirstRouteUnique(routes: Table, shortName: string, a: string, b: string)
    requires RoutesShape(routes)
    requires FirstRoute(routes, shortName, a) && FirstRoute(routes, shortName, b)
    ensures a == b
  {
    var i :| && RouteNamed(routes, i, shortName)
             && (forall j :: 0 <= j < i ==> !RouteNamed(routes, j, shortName))
             && a == Cell(routes, i, "route_id");
    var k :| && RouteNamed(routes, k, shortName)
             && (forall j :: 0 <= j < k ==> !RouteNamed(routes, j, shortName))
             && b == Cell(routes, k, "route_id");
    assert !(i < k) && !(k < i);
  }

  /** The `route_id` of the first row whose short name is `shortName`; a
      route that no row names is not found. */
  method GetRouteId(routes: Table, shortName: string) returns (r: Result<string>)
    requires RoutesShape(routes)
    ensures r.Err? <==> forall i :: 0 <= i < |routes.rows| ==> !RouteNamed(routes, i, shortName)
    ensures r.Err? ==> r.error == NotFound(Route)
    ensures r.Ok? ==> FirstRoute(routes, shortName, r.value)
  {
    var column := HeaderIndex(routes.header);
    for i := 0 to |routes.rows|
      invariant forall j :: 0 <= j < i ==> !RouteNamed(routes, j, shortName)
    {
      var row := routes.rows[i];
      IndexedCell(routes, column, "route_short_name", i);
      if row[column["route_short_name"]] == shortName {
        IndexedCell(routes, column, "route_id", i);
        assert RouteNamed(routes, i, shortName);
        return Ok(row[column["route_id"]]);
      }
    }
    return Err(NotFound(Route));
  }

  // ---------------------------------------------------------------------
  // Stop lookup

  /** The cells the stop lookup reads: every row's name, and the id of each
      row named `name`. */
  predicate StopsShape(stops: Table, name: string) {
    forall i :: 0 <= i < |stops.rows| ==>
      && HasCell(stops, i, "stop_name")
      && (Cell(stops, i, "stop_name") == name ==> HasCell(stops, i, "stop_id"))
  }

  predicate StopNamed(stops: Table, i: int, name: string, id: string)
    requires StopsShape(stops, name)
  {
    0 <= i < |stops.rows| && Cell(stops, i, "stop_name") == name && Cell(stops, i, "stop_id") == id
  }

  /** Every `stop_id` whose row carries the name `name`; one name may stand
      for several stops. An empty set is a stop that is not found. */
  method GetStopIds(stops: Table, name: string) returns (r: Result<set<string>>)
    requires StopsShape(stops, name)
    ensures r.Err? <==> forall i, id :: !StopNamed(stops, i, name, id)
    ensures r.Err? ==> r.error == NotFound(Stop)
    ensures r.Ok? ==> r.value != {}
    ensures r.Ok? ==> forall id :: id in r.value <==> exists i :: StopNamed(stops, i, name, id)
  {
    var column := HeaderIndex(stops.header);
    var stopIds: set<string> := {};
    for i := 0 to |stops.rows|
      invariant forall id :: id in stopIds <==> exists j :: 0 <= j < i && StopNamed(stops, j, name, id)
    {
      var row := stops.rows[i];
      IndexedCell(stops, column, "stop_name", i);
      if row[column["stop_name"]] == name {
        IndexedCell(stops, column, "stop_id", i);
        assert StopNamed(stops, i, name, row[column["stop_id"]]);
        stopIds := stopIds + {row[column["stop_id"]]};
      }
    }
    if stopIds == {} {
      forall j, id ensures !StopNamed(stops, j, name, id) {
        assert id !in stopIds;
      }
      return Err(NotFound(Stop));
    }
    return Ok(stopIds);
  }

  // ---------------------------------------------------------------------
  // Trips grouped by service

  /** The cells the trip search reads, in the order its short-circuit test
      reads them: every row's route, the headsign of a row on `routeId`, and
      the service and trip of a row that matches both. */
  predicate TripsShape(trips: Table, routeId: string, headsign: string) {
    forall i :: 0 <= i < |trips.rows| ==>
      && HasCell(trips, i, "route_id")
      && (Cell(trips, i, "route_id") == routeId ==>
            && HasCell(trips, i, "trip_headsign")
            && (Cell(trips, i, "trip_headsign") == headsign ==>
                  HasCell(trips, i, "service_id") && HasCell(trips, i, "trip_id")))
  }

  /** Row `i` is a trip `tripId` of service `serviceId` on route `routeId`
      towards `headsign`. */
  predicate TripOf(trips: Table, i: int, routeId: string, headsign: string, serviceId: string, tripId: string)
    requires TripsShape(trips, routeId, headsign)
  {
    && 0 <= i < |trips.rows|
    && Cell(trips, i, "route_id") == routeId
    && Cell(trips, i, "trip_headsign") == headsign
    && Cell(trips, i, "service_id") == serviceId
    && Cell(trips, i, "trip_id") == tripId
  }

  /** Some row before `n` is trip `tripId` of service `serviceId` on the route
      and headsign asked for. */
  ghost predicate TripBefore(trips: Table, routeId: string, headsign: string, n: int,
                             serviceId: string, tripId: string)
    requires TripsShape(trips, routeId, headsign)
  {
    exists j :: 0 <= j < n && TripOf(trips, j, routeId, headsign, serviceId, tripId)
  }

  /** `serviceTrips` holds exactly the trips of rows before `n` that run on
      route `routeId` towards `headsign`, grouped by service, and holds no
      service without a trip. */
  ghost predicate GroupsTrips(trips: Table, routeId: string, headsign: string, n: int,
                              serviceTrips: map<string, set<string>>)
    requires TripsShape(trips, routeId, headsign)
  {
    && (forall s, t :: InGroup(serviceTrips, s, t) <==> TripBefore(trips, routeId, headsign, n, s, t))
    && (forall s :: s in serviceTrips ==> serviceTrips[s] != {})
  }

  lemma GroupsTripsStep(trips: Table, routeId: string, headsign: string, i: int,
                        before: map<string, set<string>>, after: map<string, set<string>>)
    requires TripsShape(trips, routeId, headsign) && 0 <= i < |trips.rows|
    requires GroupsTrips(trips, routeId, headsign, i, before)
    requires Cell(trips, i, "route_id") == routeId && Cell(trips, i, "trip_headsign") == headsign
    requires var sv, tr := Cell(trips, i, "service_id"), Cell(trips, i, "trip_id");
             after == before[sv := (if sv in before then before[sv] else {}) + {tr}]
    ensures GroupsTrips(trips, routeId, headsign, i + 1, after)
  {
    var sv, tr := Cell(trips, i, "service_id"), Cell(trips, i, "trip_id");
    assert TripOf(trips, i, routeId, headsign, sv, tr);
    forall s, t ensures InGroup(after, s, t) <==> TripBefore(trips, routeId, headsign, i + 1, s, t) {
      if TripBefore(trips, routeId, headsign, i + 1, s, t) {
        var j :| 0 <= j < i + 1 && TripOf(trips, j, routeId, headsign, s, t);
        if j < i {
          assert TripBefore(trips, routeId, headsign, i, s, t);
          assert InGroup(before, s, t);
        }
      }
      if InGroup(after, s, t) && !(s == sv && t == tr) {
        assert InGroup(before, s, t);
      }
    }
  }

  lemma GroupsTripsSkip(trips: Table, routeId: string, headsign: string, i: int,
                        serviceTrips: map<string, set<string>>)
    requires TripsShape(trips, routeId, headsign) && 0 <= i < |trips.rows|
    requires GroupsTrips(trips, routeId, headsign, i, serviceTrips)
    requires Cell(trips, i, "route_id") != routeId || Cell(trips, i, "trip_headsign") != headsign
    ensures GroupsTrips(trips, routeId, headsign, i + 1, serviceTrips)
  {
    forall s, t ensures InGroup(serviceTrips, s, t) <==> TripBefore(trips, routeId, headsign, i + 1, s, t) {
      assert !TripOf(trips, i, routeId, headsign, s, t);
      assert InGroup(serviceTrips, s, t) <==> TripBefore(trips, routeId, headsign, i, s, t);
    }
  }

  /** Maps each service to the trips it operates on route `routeId` towards
      `headsign`; no matching trip at all is not found. */
  method GetTripAndServiceIds(trips: Table, routeId: string, headsign: string)
    returns (r: Result<map<string, set<string>>>)
    requires TripsShape(trips, routeId, headsign)
    ensures r.Err? <==> forall i, s, t :: !TripOf(trips, i, routeId, headsign, s, t)
    ensures r.Err? ==> r.error == NotFound(Trip)
    ensures r.Ok? ==> r.value != map[]
    ensures r.Ok? ==> forall s, t :: InGroup(r.value, s, t) <==>
              exists i :: TripOf(trips, i, routeId, headsign, s, t)
    ensures r.Ok? ==> forall s :: s in r.value <==>
              exists i, t :: TripOf(trips, i, routeId, headsign, s, t)
    ensures r.Ok? ==> forall s :: s in r.value ==> r.value[s] != {}
  {
    var column := HeaderIndex(trips.header);
    var serviceTrips: map<string, set<string>> := map[];
    for i := 0 to |trips.rows|
      invariant GroupsTrips(trips, routeId, headsign, i, serviceTrips)
    {
      var row := trips.rows[i];
      IndexedCell(trips, column, "route_id", i);
      if row[column["route_id"]] == routeId {
        IndexedCell(trips, column, "trip_headsign", i);
      }
      if row[column["route_id"]] == routeId && row[column["trip_headsign"]] == headsign {
        IndexedCell(trips, column, "service_id", i);
        IndexedCell(trips, column, "trip_id", i);
        var serviceId := row[column["service_id"]];
        var known := if serviceId in serviceTrips then serviceTrips[serviceId] else {};
        ghost var before := serviceTrips;
        serviceTrips := serviceTrips[serviceId := known + {row[column["trip_id"]]}];
        GroupsTripsStep(trips, routeId, headsign, i, before, serviceTrips);
      } else {
        GroupsTripsSkip(trips, routeId, headsign, i, serviceTrips);
      }
    }
    GroupedKeys(trips, routeId, headsign, serviceTrips);
    if serviceTrips == map[] {
      return Err(NotFound(Trip));
    }
    return Ok(serviceTrips);
  }

  lemma GroupedKeys(trips: Table, routeId: string, headsign: string,
                    serviceTrips: map<string, set<string>>)
    requires TripsShape(trips, routeId, headsign)
    requires GroupsTrips(trips, routeId, headsign, |trips.rows|, serviceTrips)
    ensures forall s :: s in serviceTrips <==> exists i, t :: TripOf(trips, i, routeId, headsign, s, t)
    ensures forall s, t :: InGroup(serviceTrips, s, t) <==> exists i :: TripOf(trips, i, routeId, headsign, s, t)
    ensures serviceTrips == map[] <==> forall i, s, t :: !TripOf(trips, i, routeId, headsign, s, t)
  {
    forall s | s in serviceTrips ensures exists i, t :: TripOf(trips, i, routeId, headsign, s, t) {
      var t :| t in serviceTrips[s];
      assert InGroup(serviceTrips, s, t);
      assert TripBefore(trips, routeId, headsign, |trips.rows|, s, t);
    }
    forall i, s, t | TripOf(trips, i, routeId, headsign, s, t) ensures s in serviceTrips {
      assert TripBefore(trips, routeId, headsign, |trips.rows|, s, t);
      assert InGroup(serviceTrips, s, t);
    }
    forall s, t ensures InGroup(serviceTrips, s, t) <==> exists i :: TripOf(trips, i, routeId, headsign, s, t) {
      assert InGroup(serviceTrips, s, t) <==> TripBefore(trips, routeId, headsign, |trips.rows|, s, t);
    }
  }

  // ---------------------------------------------------------------------
  // Calendar join

  /** Row `i` holds the two cells the join reads. */
  predicate CalendarRow(calendar: Table, i: int) {
    HasCell(calendar, i, "service_id") && HasCell(calendar, i, "date")
  }

  /** Row `i` of the calendar exceptions names a selected service on a date of
      the range. */
  predicate Claims(calendar: Table, i: int, services: map<string, set<string>>, days: set<string>) {
    && CalendarRow(calendar, i)
    && Cell(calendar, i, "service_id") in services
    && Cell(calendar, i, "date") in days
  }

  /** The cells the join reads: those of every row up to the one that makes
      a second claim on a date, where the join stops. */
  ghost predicate CalendarShape(calendar: Table, services: map<string, set<string>>, days: set<string>) {
    forall k :: 0 <= k < |calendar.rows| && !ClaimedTwice(calendar, services, days, k) ==> CalendarRow(calendar, k)
  }

  /** A row before `n` claims `date`. */
  ghost predicate ClaimedBefore(calendar: Table, services: map<string, set<string>>, days: set<string>,
                                n: int, date: string)
  {
    exists i :: 0 <= i < n && Claims(calendar, i, services, days) && Cell(calendar, i, "date") == date
  }

  /** Two rows before `n` claim the same date. */
  ghost predicate ClaimedTwice(calendar: Table, services: map<string, set<string>>, days: set<string>, n: int) {
    exists i, j :: && 0 <= i < j < n
                   && Claims(calendar, i, services, days) && Claims(calendar, j, services, days)
                   && Cell(calendar, i, "date") == Cell(calendar, j, "date")
  }

  /** `dateTrips` assigns each date claimed before row `n` the trips of the
      service that claims it, and no date is claimed twice. */
  ghost predicate AssignsDates(calendar: Table, services: map<string, set<string>>, days: set<string>,
                               n: int, dateTrips: map<string, set<string>>) {
    && (forall d :: d in dateTrips <==> ClaimedBefore(calendar, services, days, n, d))
    && (forall i :: 0 <= i < n && Claims(calendar, i, services, days) ==>
          && Cell(calendar, i, "date") in dateTrips
          && dateTrips[Cell(calendar, i, "date")] == services[Cell(calendar, i, "service_id")])
    && !ClaimedTwice(calendar, services, days, n)
  }

  lemma AssignsDatesStep(calendar: Table, services: map<string, set<string>>, days: set<string>,
                         k: int, before: map<string, set<string>>)
    requires 0 <= k < |calendar.rows|
    requires AssignsDates(calendar, services, days, k, before)
    requires Claims(calendar, k, services, days) && Cell(calendar, k, "date") !in before
    ensures AssignsDates(calendar, services, days, k + 1,
              before[Cell(calendar, k, "date") := services[Cell(calendar, k, "service_id")]])
  {
    var date := Cell(calendar, k, "date");
    var after := before[date := services[Cell(calendar, k, "service_id")]];
    forall d ensures d in after <==> ClaimedBefore(calendar, services, days, k + 1, d) {
      if ClaimedBefore(calendar, services, days, k + 1, d) && d != date {
        var i :| 0 <= i < k + 1 && Claims(calendar, i, services, days) && Cell(calendar, i, "date") == d;
        assert ClaimedBefore(calendar, services, days, k, d);
      }
      if d == date {
        assert Claims(calendar, k, services, days);
      }
    }
    forall i, j | 0 <= i < j < k + 1 && Claims(calendar, i, services, days) && Claims(calendar, j, services, days)
      ensures Cell(calendar, i, "date") != Cell(calendar, j, "date")
    {
      if j == k {
        assert !ClaimedBefore(calendar, services, days, k, date);
      }
    }
  }

  lemma AssignsDatesSkip(calendar: Table, services: map<string, set<string>>, days: set<string>,
                         k: int, dateTrips: map<string, set<string>>)
    requires 0 <= k < |calendar.rows|
    requires AssignsDates(calendar, services, days, k, dateTrips)
    requires !Claims(calendar, k, services, days)
    ensures AssignsDates(calendar, services, days, k + 1, dateTrips)
  {
    forall d ensures ClaimedBefore(calendar, services, days, k + 1, d) ==> ClaimedBefore(calendar, services, days, k, d) {
      if ClaimedBefore(calendar, services, days, k + 1, d) {
        var i :| 0 <= i < k + 1 && Claims(calendar, i, services, days) && Cell(calendar, i, "date") == d;
        assert i < k;
      }
    }
    forall i, j | 0 <= i < j < k + 1 && Claims(calendar, i, services, days) && Claims(calendar, j, services, days)
      ensures Cell(calendar, i, "date") != Cell(calendar, j, "date")
    {
      assert j < k;
    }
  }

  /** A join that meets no second claim reads every row. */
  lemma ReadsEveryRow(calendar: Table, services: map<string, set<string>>, days: set<string>)
    requires CalendarShape(calendar, services, days)
    requires !ClaimedTwice(calendar, services, days, |calendar.rows|)
    ensures forall k :: 0 <= k < |calendar.rows| ==> CalendarRow(calendar, k)
  {
    forall k | 0 <= k < |calendar.rows| ensures !ClaimedTwice(calendar, services, days, k) {
      forall i, j | 0 <= i < j < k
        ensures !(Claims(calendar, i, services, days) && Claims(calendar, j, services, days)
                  && Cell(calendar, i, "date") == Cell(calendar, j, "date"))
      {
        assert j < |calendar.rows|;
      }
    }
  }

  /** Joins the selected services with the calendar exceptions of the date
      range `start` through `end`: each claimed date gets the trips of the
      service that claims it. A date claimed twice aborts the join; a range in
      which no selected service runs is not found. */
  method JoinDateAndTripIds(calendar: Table, services: map<string, set<string>>, start: Date, end: Date)
    returns (r: Result<map<string, set<string>>>)
    requires Valid(start) && Valid(end) && CalendarShape(calendar, services, DateRange(start, end))
    ensures var days := DateRange(start, end);
      r == Err(DuplicateServiceOnDate) <==> ClaimedTwice(calendar, services, days, |calendar.rows|)
    ensures var days := DateRange(start, end);
      r == Err(NotFound(ServiceDate)) <==>
        && !ClaimedTwice(calendar, services, days, |calendar.rows|)
        && forall i :: !Claims(calendar, i, services, days)
    ensures r.Err? ==> r.error in {DuplicateServiceOnDate, NotFound(ServiceDate)}
    ensures r.Ok? ==> r.value != map[] && forall d :: d in r.value ==> d in DateRange(start, end)
    ensures r.Ok? ==> forall d :: d in r.value <==>
              exists i :: Claims(calendar, i, services, DateRange(start, end)) && Cell(calendar, i, "date") == d
    ensures r.Ok? ==> forall i :: Claims(calendar, i, services, DateRange(start, end)) ==>
              r.value[Cell(calendar, i, "date")] == services[Cell(calendar, i, "service_id")]
  {
    var days := ExpandDates(start, end);
    var column := HeaderIndex(calendar.header);
    var dateTrips: map<string, set<string>> := map[];
    for k := 0 to |calendar.rows|
      invariant AssignsDates(calendar, services, days, k, dateTrips)
    {
      var row := calendar.rows[k];
      IndexedCell(calendar, column, "service_id", k);
      IndexedCell(calendar, column, "date", k);
      var serviceId := row[column["service_id"]];
      var date := row[column["date"]];
      if serviceId in services && date in days {
        if date in dateTrips {
          ghost var i :| 0 <= i < k && Claims(calendar, i, services, days) && Cell(calendar, i, "date") == date;
          assert Claims(calendar, k, services, days);
          assert ClaimedTwice(calendar, services, days, |calendar.rows|);
          return Err(DuplicateServiceOnDate);
        }
        AssignsDatesStep(calendar, services, days, k, dateTrips);
        dateTrips := dateTrips[date := services[serviceId]];
      } else {
        AssignsDatesSkip(calendar, services, days, k, dateTrips);
      }
    }
    ReadsEveryRow(calendar, services, days);
    if dateTrips == map[] {
      forall i | 0 <= i < |calendar.rows| ensures !Claims(calendar, i, services, days) {
        assert CalendarRow(calendar, i);
        assert !ClaimedBefore(calendar, services, days, |calendar.rows|, Cell(calendar, i, "date"));
      }
      return Err(NotFound(ServiceDate));
    }
    forall d | d in dateTrips ensures d in days {
      assert ClaimedBefore(calendar, services, days, |calendar.rows|, d);
    }
    forall d | exists i :: Claims(calendar, i, services, days) && Cell(calendar, i, "date") == d
      ensures d in dateTrips
    {
      assert ClaimedBefore(calendar, services, days, |calendar.rows|, d);
    }
    return Ok(dateTrips);
  }

  // ---------------------------------------------------------------------
  // Inversion of the date map

  /** Turns the trips running on each date into the dates each trip runs on. */
  method InvertDateMap(dateTrips: map<string, set<string>>) returns (tripDates: map<string, set<string>>)
    ensures forall t, d :: InGroup(tripDates, t, d) <==> InGroup(dateTrips, d, t)
    ensures forall t :: t in tripDates ==> tripDates[t] != {}
  {
    tripDates := map[];
    var pending := dateTrips.Keys;
    while pending != {}
      invariant pending <= dateTrips.Keys
      invariant forall t, d :: InGroup(tripDates, t, d) <==> InGroup(dateTrips, d, t) && d !in pending
      invariant forall t :: t in tripDates ==> tripDates[t] != {}
      decreases pending
    {
      var date :| date in pending;
      var tripsOfDate := dateTrips[date];
      var rest := tripsOfDate;
      while rest != {}
        invariant rest <= tripsOfDate
        invariant forall t, d :: InGroup(tripDates, t, d) <==>
                    || (InGroup(dateTrips, d, t) && d !in pending)
                    || (d == date && t in tripsOfDate && t !in rest)
        invariant forall t :: t in tripDates ==> tripDates[t] != {}
        decreases rest
      {
        var trip :| trip in rest;
        var known := if trip in tripDates then tripDates[trip] else {};
        tripDates := tripDates[trip := known + {date}];
        rest := rest - {trip};
      }
      pending := pending - {date};
    }
  }

  // ---------------------------------------------------------------------
  // Departures at the stop

  predicate StopTimesShape(stopTimes: Table) {
    && HasColumn(stopTimes, "trip_id") && HasColumn(stopTimes, "stop_id")
    && HasColumn(stopTimes, "departure_time")
  }

  /** Row `i` of the stop times is a call at one of `stopIds` by a trip that
      runs on some date `d` of `tripDates`, and `stamp` is that date followed
      by a space and the departure time of the row. */
  predicate DepartsAt(stopTimes: Table, i: int, tripDates: map<string, set<string>>, stopIds: set<string>,
                      stamp: string)
    requires StopTimesShape(stopTimes)
  {
    && 0 <= i < |stopTimes.rows|
    && Cell(stopTimes, i, "stop_id") in stopIds
    && Cell(stopTimes, i, "trip_id") in tripDates
    && exists d :: d in tripDates[Cell(stopTimes, i, "trip_id")] && stamp == d + " " + Cell(stopTimes, i, "departure_time")
  }

  ghost predicate DepartsBefore(stopTimes: Table, n: int, tripDates: map<string, set<string>>, stopIds: set<string>,
                                stamp: string)
    requires StopTimesShape(stopTimes)
  {
    exists i :: 0 <= i < n && DepartsAt(stopTimes, i, tripDates, stopIds, stamp)
  }

  /** Collects `date + " " + departure_time` for every stop-times row at one
      of `stopIds` whose trip is a key of `tripDates`, once per date of that
      trip. An empty result is a valid answer. */
  method GetStoptimes(stopTimes: Table, tripDates: map<string, set<string>>, stopIds: set<string>)
    returns (departures: set<string>)
    requires StopTimesShape(stopTimes)
    ensures forall x :: x in departures <==> exists i :: DepartsAt(stopTimes, i, tripDates, stopIds, x)
  {
    var column := HeaderIndex(stopTimes.header);
    departures := {};
    for i := 0 to |stopTimes.rows|
      invariant forall x :: x in departures <==> DepartsBefore(stopTimes, i, tripDates, stopIds, x)
    {
      var row := stopTimes.rows[i];
      IndexedCell(stopTimes, column, "trip_id", i);
      IndexedCell(stopTimes, column, "stop_id", i);
      IndexedCell(stopTimes, column, "departure_time", i);
      var tripId := row[column["trip_id"]];
      var stopId := row[column["stop_id"]];
      var departureTime := row[column["departure_time"]];
      ghost var before := departures;
      if stopId in stopIds && tripId in tripDates {
        var dates := tripDates[tripId];
        var rest := dates;
        while rest != {}
          invariant rest <= dates
          invariant forall x :: x in departures <==>
                      x in before || exists d :: d in dates && d !in rest && x == d + " " + departureTime
          decreases rest
        {
          var date :| date in rest;
          departures := departures + {date + " " + departureTime};
          rest := rest - {date};
        }
      }
      forall x ensures x in departures <==> DepartsBefore(stopTimes, i + 1, tripDates, stopIds, x) {
        if DepartsBefore(stopTimes, i + 1, tripDates, stopIds, x) {
          var j :| 0 <= j < i + 1 && DepartsAt(stopTimes, j, tripDates, stopIds, x);
          if j < i {
            assert DepartsBefore(stopTimes, i, tripDates, stopIds, x);
          }
        }
        if x in departures && x !in before {
          assert DepartsAt(stopTimes, i, tripDates, stopIds, x);
        }
      }
    }
  }
}
