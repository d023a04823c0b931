/** The script's main line: resolve the route and the stop, find the trips
    and their services, join them with the calendar, invert the date map,
    collect the departures and sort them into the lines of the output. */
module Pipeline {
  import opened Results
  import opened Tables
  import opened Dates
  import opened Departures
  import opened Ordering

  /** The name lookups succeed: `routeId` is the id of the first route row
      named `route`, and some stop row is named `stop`. */
  ghost predicate Resolved(routes: Table, stops: Table, route: string, stop: string, routeId: string)
    requires RoutesShape(routes)
  {
    && FirstRoute(routes, route, routeId)
    && StopsShape(stops, stop)
    && exists i, id :: StopNamed(stops, i, stop, id)
  }

  /** The cells the whole run reads: the stops once the route is found, and
      the cells of `RunShape` once both lookups succeed. */
  ghost predicate TablesShape(routes: Table, stops: Table, trips: Table, calendar: Table, stopTimes: Table,
                              route: string, stop: string, headsign: string, start: Date, end: Date)
    requires Valid(start) && Valid(end)
  {
    && RoutesShape(routes)
    && ((exists i :: RouteNamed(routes, i, route)) ==> StopsShape(stops, stop))
    && forall routeId :: Resolved(routes, stops, route, stop, routeId) ==>
         RunShape(trips, calendar, stopTimes, routeId, headsign, start, end)
  }

  /** The cells the stages after the name lookups read: the trips always, the
      calendar once some trip is found, the stop times once the join succeeds. */
  ghost predicate RunShape(trips: Table, calendar: Table, stopTimes: Table, routeId: string, headsign: string,
                           start: Date, end: Date)
    requires Valid(start) && Valid(end)
  {
    && TripsShape(trips, routeId, headsign)
    && ((exists i, s, t :: TripOf(trips, i, routeId, headsign, s, t)) ==>
          CalendarReadable(trips, calendar, routeId, headsign, start, end))
    && ((exists i, s, t :: TripOf(trips, i, routeId, headsign, s, t))
        && !DoubleBooked(trips, calendar, routeId, headsign, start, end)
        && !Unserved(trips, calendar, routeId, headsign, start, end) ==>
          StopTimesShape(stopTimes))
  }

  /** Service `serviceId` operates some trip of route `routeId` towards `headsign`. */
  ghost predicate Selected(trips: Table, routeId: string, headsign: string, serviceId: string)
    requires TripsShape(trips, routeId, headsign)
  {
    exists i, t :: TripOf(trips, i, routeId, headsign, serviceId, t)
  }

  /** Calendar row `c` puts a selected service on a date of the range. */
  ghost predicate Books(trips: Table, calendar: Table, routeId: string, headsign: string,
                        start: Date, end: Date, c: int)
    requires TripsShape(trips, routeId, headsign) && Valid(start) && Valid(end)
  {
    && CalendarRow(calendar, c)
    && Selected(trips, routeId, headsign, Cell(calendar, c, "service_id"))
    && Cell(calendar, c, "date") in DateRange(start, end)
  }

  /** Two calendar rows before row `n` book the same date. */
  ghost predicate BookedTwice(trips: Table, calendar: Table, routeId: string, headsign: string,
                              start: Date, end: Date, n: int)
    requires TripsShape(trips, routeId, headsign) && Valid(start) && Valid(end)
  {
    exists c1, c2 :: && 0 <= c1 < c2 < n
                     && Books(trips, calendar, routeId, headsign, start, end, c1)
                     && Books(trips, calendar, routeId, headsign, start, end, c2)
                     && Cell(calendar, c1, "date") == Cell(calendar, c2, "date")
  }

  /** Two calendar rows put selected services on the same date of the range. */
  ghost predicate DoubleBooked(trips: Table, calendar: Table, routeId: string, headsign: string,
                               start: Date, end: Date)
    requires TripsShape(trips, routeId, headsign) && Valid(start) && Valid(end)
  {
    BookedTwice(trips, calendar, routeId, headsign, start, end, |calendar.rows|)
  }

  /** No calendar row puts a selected service on a date of the range. */
  ghost predicate Unserved(trips: Table, calendar: Table, routeId: string, headsign: string,
                           start: Date, end: Date)
    requires TripsShape(trips, routeId, headsign) && Valid(start) && Valid(end)
  {
    forall c :: 0 <= c < |calendar.rows| ==> !Books(trips, calendar, routeId, headsign, start, end, c)
  }

  /** The calendar rows the join reads: each row up to the second booking of a
      date has its `service_id` and `date`. */
  ghost predicate CalendarReadable(trips: Table, calendar: Table, routeId: string, headsign: string,
                                   start: Date, end: Date)
    requires TripsShape(trips, routeId, headsign) && Valid(start) && Valid(end)
  {
    forall k :: 0 <= k < |calendar.rows| && !BookedTwice(trips, calendar, routeId, headsign, start, end, k) ==>
      CalendarRow(calendar, k)
  }

  /** A range whose end lies before its start has no dates, so no service
      runs in it. */
  lemma ReversedRangeUnserved(trips: Table, calendar: Table, routeId: string, headsign: string,
                              start: Date, end: Date)
    requires TripsShape(trips, routeId, headsign) && Valid(start) && Valid(end)
    requires Ordinal(end) < Ordinal(start)
    ensures Unserved(trips, calendar, routeId, headsign, start, end)
  {
    DateRangeSize(start, end);
  }

  /** `stamp` is a scheduled departure: some stop-times row `p` calls at a stop
      named `stop` in trip `t`; calendar row `c` books the service of trip `t`,
      which belongs to route `routeId` towards `headsign`, on a date of the
      range; and `stamp` joins that date to the departure time of row `p`. */
  ghost predicate Scheduled(stops: Table, trips: Table, calendar: Table, stopTimes: Table,
                            stop: string, routeId: string, headsign: string,
                            start: Date, end: Date, stamp: string)
    requires StopsShape(stops, stop) && TripsShape(trips, routeId, headsign) && StopTimesShape(stopTimes)
    requires Valid(start) && Valid(end)
  {
    exists p, c, k, j ::
      && 0 <= p < |stopTimes.rows|
      && Books(trips, calendar, routeId, headsign, start, end, c)
      && StopNamed(stops, j, stop, Cell(stopTimes, p, "stop_id"))
      && TripOf(trips, k, routeId, headsign, Cell(calendar, c, "service_id"), Cell(stopTimes, p, "trip_id"))
      && stamp == Cell(calendar, c, "date") + " " + Cell(stopTimes, p, "departure_time")
  }

  /** Chaining the guarantees of the stages: the departures collected from the
      inverted date map are exactly the scheduled departures. */
  lemma ChainedDepartures(stops: Table, trips: Table, calendar: Table, stopTimes: Table,
                          stop: string, routeId: string, headsign: string, start: Date, end: Date,
                          stopIds: set<string>, services: map<string, set<string>>,
                          dateTrips: map<string, set<string>>, tripDates: map<string, set<string>>,
                          departures: set<string>)
    requires StopsShape(stops, stop) && TripsShape(trips, routeId, headsign) && StopTimesShape(stopTimes)
    requires Valid(start) && Valid(end)
    requires forall id :: id in stopIds <==> exists i :: StopNamed(stops, i, stop, id)
    requires forall s, t :: InGroup(services, s, t) <==> exists i :: TripOf(trips, i, routeId, headsign, s, t)
    requires forall d :: d in dateTrips <==>
               exists i :: Claims(calendar, i, services, DateRange(start, end)) && Cell(calendar, i, "date") == d
    requires forall i :: Claims(calendar, i, services, DateRange(start, end)) ==>
               dateTrips[Cell(calendar, i, "date")] == services[Cell(calendar, i, "service_id")]
    requires forall t, d :: InGroup(tripDates, t, d) <==> InGroup(dateTrips, d, t)
    requires forall x :: x in departures <==> exists i :: DepartsAt(stopTimes, i, tripDates, stopIds, x)
    ensures forall x :: x in departures <==>
              Scheduled(stops, trips, calendar, stopTimes, stop, routeId, headsign, start, end, x)
  {
    var days := DateRange(start, end);
    forall x | x in departures
      ensures Scheduled(stops, trips, calendar, stopTimes, stop, routeId, headsign, start, end, x)
    {
      var p :| DepartsAt(stopTimes, p, tripDates, stopIds, x);
      var t, dep := Cell(stopTimes, p, "trip_id"), Cell(stopTimes, p, "departure_time");
      var d :| d in tripDates[t] && x == d + " " + dep;
      assert InGroup(tripDates, t, d) && InGroup(dateTrips, d, t);
      var c :| Claims(calendar, c, services, days) && Cell(calendar, c, "date") == d;
      var s := Cell(calendar, c, "service_id");
      assert InGroup(services, s, t);
      var k :| TripOf(trips, k, routeId, headsign, s, t);
      assert Books(trips, calendar, routeId, headsign, start, end, c);
      var j :| StopNamed(stops, j, stop, Cell(stopTimes, p, "stop_id"));
    }
    forall x | Scheduled(stops, trips, calendar, stopTimes, stop, routeId, headsign, start, end, x)
      ensures x in departures
    {
      var p, c, k, j :|
        && 0 <= p < |stopTimes.rows|
        && Books(trips, calendar, routeId, headsign, start, end, c)
        && StopNamed(stops, j, stop, Cell(stopTimes, p, "stop_id"))
        && TripOf(trips, k, routeId, headsign, Cell(calendar, c, "service_id"), Cell(stopTimes, p, "trip_id"))
        && x == Cell(calendar, c, "date") + " " + Cell(stopTimes, p, "departure_time");
      var s, t, d := Cell(calendar, c, "service_id"), Cell(stopTimes, p, "trip_id"), Cell(calendar, c, "date");
      assert InGroup(services, s, t);
      assert Claims(calendar, c, services, days);
      assert InGroup(dateTrips, d, t);
      assert InGroup(tripDates, t, d);
      assert DepartsAt(stopTimes, p, tripDates, stopIds, x);
    }
  }

  /** With the services of the trips as keys, a row the calendar join claims
      is a row that books a selected service, and the reverse. */
  lemma ClaimsAreBookings(trips: Table, calendar: Table, routeId: string, headsign: string,
                          start: Date, end: Date, services: map<string, set<string>>)
    requires TripsShape(trips, routeId, headsign) && Valid(start) && Valid(end)
    requires forall s :: s in services <==> exists i, t :: TripOf(trips, i, routeId, headsign, s, t)
    ensures forall c :: Claims(calendar, c, services, DateRange(start, end)) <==>
                        Books(trips, calendar, routeId, headsign, start, end, c)
  {
  }

  /** With the services of the trips as keys, a date claimed twice by the
      calendar join is a double booking, before any row; so the rows the join
      reads are the rows the run needs. */
  lemma ClaimedTwiceIsDoubleBooked(trips: Table, calendar: Table, routeId: string, headsign: string,
                                   start: Date, end: Date, services: map<string, set<string>>)
    requires TripsShape(trips, routeId, headsign) && Valid(start) && Valid(end)
    requires forall s :: s in services <==> exists i, t :: TripOf(trips, i, routeId, headsign, s, t)
    ensures forall n :: ClaimedTwice(calendar, services, DateRange(start, end), n) <==>
                        BookedTwice(trips, calendar, routeId, headsign, start, end, n)
    ensures ClaimedTwice(calendar, services, DateRange(start, end), |calendar.rows|) <==>
            DoubleBooked(trips, calendar, routeId, headsign, start, end)
    ensures CalendarShape(calendar, services, DateRange(start, end)) <==>
            CalendarReadable(trips, calendar, routeId, headsign, start, end)
  {
    ClaimsAreBookings(trips, calendar, routeId, headsign, start, end, services);
  }

  /** With the services of the trips as keys, the calendar join claims no
      date exactly when no calendar row books a selected service. */
  lemma UnclaimedIsUnserved(trips: Table, calendar: Table, routeId: string, headsign: string,
                            start: Date, end: Date, services: map<string, set<string>>)
    requires TripsShape(trips, routeId, headsign) && Valid(start) && Valid(end)
    requires forall s :: s in services <==> exists i, t :: TripOf(trips, i, routeId, headsign, s, t)
    ensures (forall i :: !Claims(calendar, i, services, DateRange(start, end))) <==>
            Unserved(trips, calendar, routeId, headsign, start, end)
  {
    ClaimsAreBookings(trips, calendar, routeId, headsign, start, end, services);
  }

  /** The stages after the name lookups, for the route `routeId` and the stop
      ids `stopIds` that the stop name `stop` resolved to. */
  method DeparturesOnRoute(stops: Table, trips: Table, calendar: Table, stopTimes: Table,
                           stop: string, stopIds: set<string>, routeId: string, headsign: string,
                           start: Date, end: Date)
    returns (r: Result<seq<string>>)
    requires StopsShape(stops, stop) && Valid(start) && Valid(end)
    requires RunShape(trips, calendar, stopTimes, routeId, headsign, start, end)
    requires forall id :: id in stopIds <==> exists i :: StopNamed(stops, i, stop, id)
    ensures r == Err(NotFound(Trip)) <==> forall i, s, t :: !TripOf(trips, i, routeId, headsign, s, t)
    ensures r == Err(DuplicateServiceOnDate) <==>
              && (exists i, s, t :: TripOf(trips, i, routeId, headsign, s, t))
              && DoubleBooked(trips, calendar, routeId, headsign, start, end)
    ensures r == Err(NotFound(ServiceDate)) <==>
              && (exists i, s, t :: TripOf(trips, i, routeId, headsign, s, t))
              && Unserved(trips, calendar, routeId, headsign, start, end)
    ensures r.Err? ==> r.error in {NotFound(Trip), NotFound(ServiceDate), DuplicateServiceOnDate}
    ensures r.Ok? <==>
              && (exists i, s, t :: TripOf(trips, i, routeId, headsign, s, t))
              && !DoubleBooked(trips, calendar, routeId, headsign, start, end)
              && !Unserved(trips, calendar, routeId, headsign, start, end)
    ensures r.Ok? ==> StrictlySorted(r.value)
    ensures r.Ok? ==> forall x :: x in r.value <==>
              Scheduled(stops, trips, calendar, stopTimes, stop, routeId, headsign, start, end, x)
  {
    var tripsFound := GetTripAndServiceIds(trips, routeId, headsign);
    if tripsFound.Err? {
      return Err(tripsFound.error);
    }
    var services := tripsFound.value;
    ghost var someService :| someService in services;
    ghost var someTrip :| someTrip in services[someService];
    assert InGroup(services, someService, someTrip);
    ClaimedTwiceIsDoubleBooked(trips, calendar, routeId, headsign, start, end, services);
    UnclaimedIsUnserved(trips, calendar, routeId, headsign, start, end, services);
    var joined := JoinDateAndTripIds(calendar, services, start, end);
    if joined.Err? {
      return Err(joined.error);
    }
    var dateTrips := joined.value;
    var tripDates := InvertDateMap(dateTrips);
    var departures := GetStoptimes(stopTimes, tripDates, stopIds);
    var lines := SortLines(departures);
    ChainedDepartures(stops, trips, calendar, stopTimes, stop, routeId, headsign, start, end,
                      stopIds, services, dateTrips, tripDates, departures);
    return Ok(lines);
  }

  /** Runs the whole extraction. Each lookup that finds nothing, and a date
      claimed by two selected services, ends the run with that failure;
      otherwise the result is the scheduled departures, sorted, each once. */
  method ExtractDepartures(routes: Table, stops: Table, trips: Table, calendar: Table, stopTimes: Table,
                           route: string, stop: string, headsign: string, start: Date, end: Date)
    returns (r: Result<seq<string>>)
    requires Valid(start) && Valid(end)
    requires TablesShape(routes, stops, trips, calendar, stopTimes, route, stop, headsign, start, end)
    ensures r == Err(NotFound(Route)) <==> forall i :: 0 <= i < |routes.rows| ==> !RouteNamed(routes, i, route)
    ensures r == Err(NotFound(Stop)) <==>
              && (exists i :: RouteNamed(routes, i, route))
              && forall i, id :: !StopNamed(stops, i, stop, id)
    ensures r == Err(NotFound(Trip)) <==>
              exists routeId ::
                && Resolved(routes, stops, route, stop, routeId)
                && forall i, s, t :: !TripOf(trips, i, routeId, headsign, s, t)
    ensures r == Err(DuplicateServiceOnDate) <==>
              exists routeId ::
                && Resolved(routes, stops, route, stop, routeId)
                && (exists i, s, t :: TripOf(trips, i, routeId, headsign, s, t))
                && DoubleBooked(trips, calendar, routeId, headsign, start, end)
    ensures r == Err(NotFound(ServiceDate)) <==>
              exists routeId ::
                && Resolved(routes, stops, route, stop, routeId)
                && (exists i, s, t :: TripOf(trips, i, routeId, headsign, s, t))
                && Unserved(trips, calendar, routeId, headsign, start, end)
    ensures r.Ok? <==>
              exists routeId ::
                && Resolved(routes, stops, route, stop, routeId)
                && (exists i, s, t :: TripOf(trips, i, routeId, headsign, s, t))
                && !DoubleBooked(trips, calendar, routeId, headsign, start, end)
                && !Unserved(trips, calendar, routeId, headsign, start, end)
    ensures r.Ok? ==> StrictlySorted(r.value)
    ensures r.Ok? ==> forall routeId ::
              && Resolved(routes, stops, route, stop, routeId)
              && (exists i, s, t :: TripOf(trips, i, routeId, headsign, s, t))
              && !DoubleBooked(trips, calendar, routeId, headsign, start, end)
              && !Unserved(trips, calendar, routeId, headsign, start, end) ==>
                forall x :: x in r.value <==>
                  Scheduled(stops, trips, calendar, stopTimes, stop, routeId, headsign, start, end, x)
  {
    var routeFound := GetRouteId(routes, route);
    if routeFound.Err? {
      assert forall other :: !Resolved(routes, stops, route, stop, other);
      return Err(routeFound.error);
    }
    var routeId := routeFound.value;
    assert FirstRoute(routes, route, routeId);
    assert StopsShape(stops, stop);
    forall other | FirstRoute(routes, route, other) ensures other == routeId {
      FirstRouteUnique(routes, route, other, routeId);
    }
    var stopsFound := GetStopIds(stops, stop);
    if stopsFound.Err? {
      assert forall other :: !Resolved(routes, stops, route, stop, other);
      return Err(stopsFound.error);
    }
    var stopIds := stopsFound.value;
    ghost var someStop :| someStop in stopIds;
    assert exists i :: StopNamed(stops, i, stop, someStop);
    assert Resolved(routes, stops, route, stop, routeId);
    r := DeparturesOnRoute(stops, trips, calendar, stopTimes, stop, stopIds, routeId, headsign, start, end);
  }
}
