/** A worked run of the extraction on a feed of one route, two stops that
    share a name, one trip, one calendar exception and two calls. */
module Scenario {
  import opened Results
  import opened Tables
  import opened Dates
  import opened Departures
  import opened Ordering
  import opened Chronology
  import opened Pipeline

  const ROUTES := Table(["route_id", "route_short_name"], [["R1", "42"]])
  const STOPS := Table(["stop_id", "stop_name"], [["S1", "Main St"], ["S2", "Main St"]])
  const TRIPS := Table(["trip_id", "route_id", "trip_headsign", "service_id"], [["T1", "R1", "Downtown", "SVC1"]])
  const CALENDAR := Table(["service_id", "date", "exception_type"], [["SVC1", "20230103", "1"]])
  const STOP_TIMES := Table(["trip_id", "stop_id", "departure_time"],
                            [["T1", "S1", "08:00:00"], ["T1", "S2", "08:05:00"]])

  /** A header naming `name` at `k` and never after resolves it to `k`. */
  lemma ColumnAt(t: Table, name: string, k: int)
    requires 0 <= k < |t.header| && t.header[k] == name
    requires forall j :: k < j < |t.header| ==> t.header[j] != name
    ensures Column(t, name) == k
  {
  }

  const START := Date(2023, 1, 1)
  const END := Date(2023, 1, 5)
  const DAY := Date(2023, 1, 3)
  const FIRST := "20230103 08:00:00"
  const SECOND := "20230103 08:05:00"

  lemma Columns()
    ensures Column(ROUTES, "route_id") == 0 && Column(ROUTES, "route_short_name") == 1
    ensures Column(STOPS, "stop_id") == 0 && Column(STOPS, "stop_name") == 1
    ensures Column(TRIPS, "trip_id") == 0 && Column(TRIPS, "route_id") == 1
    ensures Column(TRIPS, "trip_headsign") == 2 && Column(TRIPS, "service_id") == 3
    ensures Column(CALENDAR, "service_id") == 0 && Column(CALENDAR, "date") == 1
    ensures Column(STOP_TIMES, "trip_id") == 0 && Column(STOP_TIMES, "stop_id") == 1
    ensures Column(STOP_TIMES, "departure_time") == 2
  {
    ColumnAt(ROUTES, "route_id", 0);
    ColumnAt(ROUTES, "route_short_name", 1);
    ColumnAt(STOPS, "stop_id", 0);
    ColumnAt(STOPS, "stop_name", 1);
    ColumnAt(TRIPS, "trip_id", 0);
    ColumnAt(TRIPS, "route_id", 1);
    ColumnAt(TRIPS, "trip_headsign", 2);
    ColumnAt(TRIPS, "service_id", 3);
    ColumnAt(CALENDAR, "service_id", 0);
    ColumnAt(CALENDAR, "date", 1);
    ColumnAt(STOP_TIMES, "trip_id", 0);
    ColumnAt(STOP_TIMES, "stop_id", 1);
    ColumnAt(STOP_TIMES, "departure_time", 2);
  }

  /** Every row of the feed has every cell the run reads. */
  lemma RowsComplete()
    ensures RoutesShape(ROUTES) && StopsShape(STOPS, "Main St")
    ensures forall routeId :: TripsShape(TRIPS, routeId, "Downtown")
    ensures CalendarRow(CALENDAR, 0) && StopTimesShape(STOP_TIMES)
  {
    Columns();
    assert CalendarRow(CALENDAR, 0);
  }

  lemma Shapes(start: Date, end: Date)
    requires Valid(start) && Valid(end)
    ensures TablesShape(ROUTES, STOPS, TRIPS, CALENDAR, STOP_TIMES, "42", "Main St", "Downtown", start, end)
  {
    RowsComplete();
  }

  /** The day of the exception lies in the range. */
  lemma ExceptionInRange()
    ensures DateKey(DAY) == "20230103"
    ensures "20230103" in DateRange(START, END)
  {
    DateRangeInclusive(START, END);
    assert Between(START, END, DAY);
  }

  /** Every lookup of the run succeeds. */
  lemma LookupsSucceed()
    ensures RoutesShape(ROUTES) && StopsShape(STOPS, "Main St") && TripsShape(TRIPS, "R1", "Downtown")
    ensures StopNamed(STOPS, 0, "Main St", "S1")
    ensures FirstRoute(ROUTES, "42", "R1")
    ensures Resolved(ROUTES, STOPS, "42", "Main St", "R1")
    ensures TripOf(TRIPS, 0, "R1", "Downtown", "SVC1", "T1")
  {
    Columns();
    assert RouteNamed(ROUTES, 0, "42");
    assert StopNamed(STOPS, 0, "Main St", "S1");
  }

  /** The one exception puts the trip's service in a range that holds its
      date, and there is no second row to clash with it. */
  lemma CalendarRuns(start: Date, end: Date)
    requires Valid(start) && Valid(end)
    ensures TripsShape(TRIPS, "R1", "Downtown")
    ensures !DoubleBooked(TRIPS, CALENDAR, "R1", "Downtown", start, end)
    ensures !Unserved(TRIPS, CALENDAR, "R1", "Downtown", start, end) <==> "20230103" in DateRange(start, end)
  {
    RowsComplete();
    Columns();
    assert TripOf(TRIPS, 0, "R1", "Downtown", "SVC1", "T1");
    assert Selected(TRIPS, "R1", "Downtown", Cell(CALENDAR, 0, "service_id"));
    assert Cell(CALENDAR, 0, "date") == "20230103";
    if "20230103" in DateRange(start, end) {
      assert Books(TRIPS, CALENDAR, "R1", "Downtown", start, end, 0);
    }
  }

  /** The call of stop-times row `p` at Main St on the exception's date is
      a scheduled departure. */
  lemma CallScheduled(start: Date, end: Date, p: int, x: string)
    requires Valid(start) && Valid(end) && "20230103" in DateRange(start, end)
    requires (p == 0 && x == FIRST) || (p == 1 && x == SECOND)
    ensures StopsShape(STOPS, "Main St") && TripsShape(TRIPS, "R1", "Downtown") && StopTimesShape(STOP_TIMES)
    ensures Scheduled(STOPS, TRIPS, CALENDAR, STOP_TIMES, "Main St", "R1", "Downtown", start, end, x)
  {
    RowsComplete();
    Columns();
    assert TripOf(TRIPS, 0, "R1", "Downtown", "SVC1", "T1");
    assert Cell(CALENDAR, 0, "date") == "20230103";
    assert Books(TRIPS, CALENDAR, "R1", "Downtown", start, end, 0);
    assert StopNamed(STOPS, p, "Main St", Cell(STOP_TIMES, p, "stop_id"));
    assert TripOf(TRIPS, 0, "R1", "Downtown", Cell(CALENDAR, 0, "service_id"), Cell(STOP_TIMES, p, "trip_id"));
    assert x == Cell(CALENDAR, 0, "date") + " " + Cell(STOP_TIMES, p, "departure_time");
  }

  /** Each call at Main St on a day of the range that holds the exception's
      date is a scheduled departure. */
  lemma ListedIsScheduled(start: Date, end: Date)
    requires Valid(start) && Valid(end) && "20230103" in DateRange(start, end)
    ensures StopsShape(STOPS, "Main St") && TripsShape(TRIPS, "R1", "Downtown")
    ensures StopTimesShape(STOP_TIMES)
    ensures Scheduled(STOPS, TRIPS, CALENDAR, STOP_TIMES, "Main St", "R1", "Downtown", start, end, FIRST)
    ensures Scheduled(STOPS, TRIPS, CALENDAR, STOP_TIMES, "Main St", "R1", "Downtown", start, end, SECOND)
  {
    CallScheduled(start, end, 0, FIRST);
    CallScheduled(start, end, 1, SECOND);
  }

  /** Nothing else is scheduled: one calendar row gives one date, and the
      two stop-times rows give one departure time each. */
  lemma ScheduledIsListed(start: Date, end: Date, x: string)
    requires Valid(start) && Valid(end)
    requires StopsShape(STOPS, "Main St") && TripsShape(TRIPS, "R1", "Downtown")
    requires StopTimesShape(STOP_TIMES)
    requires Scheduled(STOPS, TRIPS, CALENDAR, STOP_TIMES, "Main St", "R1", "Downtown", start, end, x)
    ensures x == FIRST || x == SECOND
  {
    Columns();
    var p, c, k, j :|
      && 0 <= p < |STOP_TIMES.rows|
      && Books(TRIPS, CALENDAR, "R1", "Downtown", start, end, c)
      && StopNamed(STOPS, j, "Main St", Cell(STOP_TIMES, p, "stop_id"))
      && TripOf(TRIPS, k, "R1", "Downtown", Cell(CALENDAR, c, "service_id"), Cell(STOP_TIMES, p, "trip_id"))
      && x == Cell(CALENDAR, c, "date") + " " + Cell(STOP_TIMES, p, "departure_time");
    assert c == 0 && Cell(CALENDAR, c, "date") == "20230103";
    if p == 0 {
      assert x == FIRST;
    } else {
      assert x == SECOND;
    }
  }

  lemma LinesInOrder()
    ensures StrictlySorted([FIRST, SECOND])
  {
    LineOrder(DAY, DAY, "08:00:00", "08:05:00");
    BelowAppend("08:0", "08:0", "0:00", "5:00");
    ExceptionInRange();
  }

  /** A strictly sorted list of exactly the scheduled departures is the two
      departures of 2023-01-03 in time order. */
  lemma OnlyTheTwo(start: Date, end: Date, lines: seq<string>)
    requires Valid(start) && Valid(end) && "20230103" in DateRange(start, end)
    requires StopsShape(STOPS, "Main St") && TripsShape(TRIPS, "R1", "Downtown") && StopTimesShape(STOP_TIMES)
    requires StrictlySorted(lines)
    requires forall x :: x in lines <==>
               Scheduled(STOPS, TRIPS, CALENDAR, STOP_TIMES, "Main St", "R1", "Downtown", start, end, x)
    ensures lines == [FIRST, SECOND]
  {
    LinesAreTheTwo(start, end, lines);
    LinesInOrder();
    SortedUnique(lines, [FIRST, SECOND]);
  }

  lemma LinesAreTheTwo(start: Date, end: Date, lines: seq<string>)
    requires Valid(start) && Valid(end) && "20230103" in DateRange(start, end)
    requires StopsShape(STOPS, "Main St") && TripsShape(TRIPS, "R1", "Downtown")
    requires StopTimesShape(STOP_TIMES)
    requires forall x :: x in lines <==>
               Scheduled(STOPS, TRIPS, CALENDAR, STOP_TIMES, "Main St", "R1", "Downtown", start, end, x)
    ensures forall x :: x in lines <==> x in [FIRST, SECOND]
  {
    ListedIsScheduled(start, end);
    forall x | x in lines ensures x in [FIRST, SECOND] {
      ScheduledIsListed(start, end, x);
    }
  }

  /** Route 42 from Main St towards Downtown departs twice on 2023-01-03,
      once from each of the two stops, in any range that holds that day;
      a range without it finds no service date. */
  method MainStreetDepartures(start: Date, end: Date) returns (r: Result<seq<string>>)
    requires Valid(start) && Valid(end)
    ensures "20230103" in DateRange(start, end) ==> r == Ok([FIRST, SECOND])
    ensures "20230103" !in DateRange(start, end) ==> r == Err(NotFound(ServiceDate))
  {
    assert TablesShape(ROUTES, STOPS, TRIPS, CALENDAR, STOP_TIMES, "42", "Main St", "Downtown", start, end) by {
      Shapes(start, end);
    }
    r := ExtractDepartures(ROUTES, STOPS, TRIPS, CALENDAR, STOP_TIMES, "42", "Main St", "Downtown", start, end);
    assert && RoutesShape(ROUTES) && StopsShape(STOPS, "Main St") && Resolved(ROUTES, STOPS, "42", "Main St", "R1")
           && TripsShape(TRIPS, "R1", "Downtown") && TripOf(TRIPS, 0, "R1", "Downtown", "SVC1", "T1") by {
      LookupsSucceed();
    }
    if "20230103" in DateRange(start, end) {
      assert !DoubleBooked(TRIPS, CALENDAR, "R1", "Downtown", start, end)
             && !Unserved(TRIPS, CALENDAR, "R1", "Downtown", start, end) by {
        CalendarRuns(start, end);
      }
      assert r.Ok?;
      assert StopTimesShape(STOP_TIMES) by {
        RowsComplete();
      }
      OnlyTheTwo(start, end, r.value);
    } else {
      assert Unserved(TRIPS, CALENDAR, "R1", "Downtown", start, end) by {
        CalendarRuns(start, end);
      }
    }
  }

  /** The run over 2023-01-01 through 2023-01-05 writes the two departures
      of 2023-01-03 in time order. */
  method MainStreetScenario() returns (r: Result<seq<string>>)
    ensures r == Ok([FIRST, SECOND])
  {
    ExceptionInRange();
    r := MainStreetDepartures(START, END);
  }
}
