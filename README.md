# Departures from a GTFS timetable

`menetrendbol_indulasok.py` reads a GTFS feed from the BKK (the Budapest
transport authority). It writes every departure of one route from one stop
towards one headsign, on every date of an inclusive date range. Each
departure is written as a line `YYYYMMDD HH:MM:SS`, in ascending order,
each line once.

The model follows the stages of the script:

- `Tables`: a CSV file after tokenising, as a header row plus data rows. A
  column name resolves to its last position in the header, as the script's
  name-to-index dict does.
- `Results`: each `sys.exit` of the extraction becomes a typed failure.
  These are `NotFound(Route | Stop | Trip | ServiceDate)` and
  `DuplicateServiceOnDate`.
- `Departures`: the lookups in `routes.txt`, `stops.txt` and `trips.txt`;
  the join with `calendar_dates.txt`; the trip-to-dates inversion; and the
  scan of `stop_times.txt`. Each one is a method with the source's loop and
  its invariants. Each method's postcondition says exactly which rows the
  result comes from.
- `Dates`: proleptic Gregorian dates, `timedelta` day stepping, the
  ordinal day number, and the date keys the script builds. It also has the
  expansion of the start/end dates into the set of keys of the inclusive
  range.
- `Ordering`: Python's string order and the sorted, duplicate-free output
  list.
- `Chronology`: why sorting the lines as strings sorts them by time, given
  four-digit years.
- `Pipeline`: the main line from route name to sorted output, with its
  result characterised end to end.
- `Params`: the bitmask that makes each of the seven options mandatory and
  allowed only once.
- `Scenario`: a worked run on a feed of one route, two stops sharing a
  name, one trip, one calendar exception and two calls. The run is proved to
  give exactly two lines.

The source builds the date key as `str(year)` followed by the month and the
day, each padded to two digits. The model does the same, so the year is not
padded. For the years 1000 to 9999 the key is the `YYYYMMDD` form of the
GTFS calendar. A year below 1000 gives a shorter key that no `YYYYMMDD` date
equals.

## Model

| member | source | states |
|---|---|---|
| Tables.LastIndex | menetrendbol_indulasok.py:34-35 | the position a repeated header name ends up with: it holds that name and no later position does, or -1 when the name is absent |
| Tables.HeaderIndex | menetrendbol_indulasok.py:34-35 | the enumerate loop's dict has exactly the header's names as keys, each mapped to the last position holding it |
| Tables.IndexedCell | menetrendbol_indulasok.py:38 | looking a column up through the header dict reads the cell of that column in the row |
| Departures.GetRouteId | menetrendbol_indulasok.py:37-42 | fails with a missing route exactly when no row has the short name; otherwise returns the route_id of the first such row |
| Departures.FirstRouteUnique | menetrendbol_indulasok.py:37-39 | a short name selects at most one route id, that of its first row |
| Departures.GetStopIds | menetrendbol_indulasok.py:56-64 | fails with a missing stop exactly when no row has the name; otherwise returns a non-empty set holding exactly the stop_ids of the rows with that name. It needs a stop_id only on rows with that name |
| Departures.GetTripAndServiceIds | menetrendbol_indulasok.py:78-89 | fails with a missing trip exactly when no row matches both route_id and headsign; otherwise maps each matching service_id to exactly the trip_ids of its matching rows, and no service to an empty set. It reads the later cells of a row only where the short-circuit test reaches them |
| Departures.GroupedKeys | menetrendbol_indulasok.py:81-85 | once the loop is done, the keys of the service map are exactly the services of the matching rows, and the map is empty exactly when no row matches |
| Departures.JoinDateAndTripIds | menetrendbol_indulasok.py:115-129 | fails for a duplicate exactly when two rows claim the same in-range date for selected services. Fails with no date exactly when, without such a clash, no row claims a date. Otherwise maps exactly the claimed dates, all in the range, each to the trips of the claiming row's service. It needs `service_id` and `date` only on the rows up to the first duplicate, since the script stops there |
| Departures.ReadsEveryRow | menetrendbol_indulasok.py:115-121 | when no two rows claim the same date, the join's requirement gives every calendar row its `service_id` and `date` |
| Departures.InvertDateMap | menetrendbol_indulasok.py:218-223 | date d lists trip t in the result exactly when trip t lists date d in the input, and no trip maps to an empty set |
| Departures.GetStoptimes | menetrendbol_indulasok.py:143-152 | the departures are exactly `date + " " + departure_time` for the rows whose stop is selected and whose trip runs on that date |
| Dates.DaysInMonth | menetrendbol_indulasok.py:101-102 | a month has 28 to 31 days, and 29 exactly for February of a Gregorian leap year |
| Dates.NextDay | menetrendbol_indulasok.py:102 | the day after a valid date is a valid date; its day number is one more by `Dates.NextDayOrdinal` |
| Dates.AddDays | menetrendbol_indulasok.py:102 | `d + timedelta(days=n)` is a valid date; its day number is n more by `Dates.AddDaysOrdinal` |
| Dates.Ordinal | menetrendbol_indulasok.py:98 | Python's `toordinal`: at least 1, and 1 exactly for 0001-01-01; the `.days` of a difference is the difference of ordinals |
| Dates.Decimal | menetrendbol_indulasok.py:103 | `str` of a natural number: decimal digits only, one digit exactly below 10, and a leading zero only for 0 |
| Dates.Pad2 | menetrendbol_indulasok.py:103 | `"{0:0>2}".format(n)`: two digits, the first a zero exactly when n is below 10 |
| Dates.DateKey | menetrendbol_indulasok.py:103 | the key of a date: digits only, four more characters than the year's numeral |
| Dates.NextDayOrdinal | menetrendbol_indulasok.py:102 | stepping one day advances the day number by one |
| Dates.AddDaysOrdinal | menetrendbol_indulasok.py:102 | `start + timedelta(days=n)` is the date whose day number is n more than start's |
| Dates.OrdinalInjective | menetrendbol_indulasok.py:98 | the day number determines the date, so a day difference locates one date |
| Dates.DecimalInjective | menetrendbol_indulasok.py:103 | `str` of a natural number determines the number |
| Dates.DateKeyInjective | menetrendbol_indulasok.py:103 | different dates get different keys |
| Dates.ExpandDates | menetrendbol_indulasok.py:98-103 | the loop collects exactly the keys of the first `delta.days + 1` days from the start, and none when the end is earlier |
| Dates.DateRangeInclusive | menetrendbol_indulasok.py:98-103 | the range's keys are exactly the keys of the valid dates from start through end, both ends included |
| Dates.DateRangeSize | menetrendbol_indulasok.py:101 | the range has one key per day, end minus start plus one, and is empty when the end lies before the start |
| Dates.DateRangeSingleDay | menetrendbol_indulasok.py:98-103 | equal bounds give exactly that day's key |
| Ordering.Below | menetrendbol_indulasok.py:229 | Python's `<` on `str`: the first differing code point decides, and a proper prefix comes first. Its order laws are the three lemmas below |
| Ordering.BelowIrreflexive | menetrendbol_indulasok.py:229 | no string sorts before itself |
| Ordering.BelowTransitive | menetrendbol_indulasok.py:229 | the string order is transitive |
| Ordering.BelowTotal | menetrendbol_indulasok.py:229 | of two different strings one sorts before the other |
| Ordering.SortLines | menetrendbol_indulasok.py:229 | `sorted` of the departure set is strictly ascending and holds exactly the set's elements, each once |
| Ordering.SortedUnique | menetrendbol_indulasok.py:229-234 | two strictly ascending lists of the same strings are equal, so the output depends only on the departure set |
| Chronology.DecimalOrder | menetrendbol_indulasok.py:103 | numerals of equal length compare as the numbers they denote |
| Chronology.OrdinalOrder | menetrendbol_indulasok.py:98 | the day number orders dates by year, then month, then day |
| Chronology.DateKeyOrder | menetrendbol_indulasok.py:103 | for four-digit years a key has eight characters, and keys compare as strings exactly as their dates compare in time |
| Chronology.LineOrder | menetrendbol_indulasok.py:150 | a departure line sorts first exactly when its date is earlier, or its date is the same and its time sorts first |
| Pipeline.ChainedDepartures | menetrendbol_indulasok.py:213-226 | chaining the stage guarantees, the collected departures are exactly the scheduled ones: stop row, trip row and calendar row agree, and the date is in range |
| Pipeline.ClaimsAreBookings | menetrendbol_indulasok.py:118 | with the trips' services as keys, a row passes the join's test exactly when it puts a selected service on a date of the range |
| Pipeline.ClaimedTwiceIsDoubleBooked | menetrendbol_indulasok.py:115-121 | the join's duplicate condition on the service map is the same as two calendar rows booking selected services on one in-range date, before any row; so the rows the join reads are the rows up to the first double booking |
| Pipeline.UnclaimedIsUnserved | menetrendbol_indulasok.py:118-127 | the join claims no date exactly when no calendar row puts a selected service on a date of the range |
| Pipeline.ReversedRangeUnserved | menetrendbol_indulasok.py:98-127 | an end before the start leaves no date, so no selected service runs in the range |
| Pipeline.DeparturesOnRoute | menetrendbol_indulasok.py:212-229 | fails with a missing trip, a duplicate date or a missing service date, each exactly under its condition. Succeeds exactly when there are trips, no double booking and a served date, and then returns the scheduled departures, sorted. It needs the calendar's cells only when trips are found, and the stop times' cells only when the join succeeds |
| Pipeline.ExtractDepartures | menetrendbol_indulasok.py:206-234 | fails with a missing route, stop, trip or service date, or a duplicate date, each exactly under its condition and in the script's order. Succeeds exactly when none of these holds, and then returns, strictly sorted, exactly the departures scheduled for the first route row with the name. It needs the stops' cells only once the route is found, and the later tables' cells only once both lookups succeed |
| Params.SetParams | menetrendbol_indulasok.py:168-195 | the option loop followed by the completeness test: an accepted command line has all seven bits set |
| Params.SetParam | menetrendbol_indulasok.py:18-24 | an option whose bit is already set is rejected as repeated; otherwise its bit is set and no other bit changes |
| Params.SetDistinctFlags | menetrendbol_indulasok.py:168-195 | while no option repeats, the command line is accepted with every bit set exactly when all seven options were given, and is otherwise rejected as incomplete |
| Params.AllOptionsOnce | menetrendbol_indulasok.py:168-195 | each of the seven options given once, in any order, is accepted with mask 127 |
| Params.RepeatedOptionRejected | menetrendbol_indulasok.py:18-21 | a command line giving some option twice is rejected as repeated |
| Params.MissingOptionRejected | menetrendbol_indulasok.py:193-195 | a command line giving fewer than seven distinct options is rejected as incomplete |
| Scenario.LinesAreTheTwo | menetrendbol_indulasok.py:143-150 | on the example feed, the scheduled departures are exactly the calls of the two Main St stops on 2023-01-03 |
| Scenario.MainStreetDepartures | menetrendbol_indulasok.py:206-234 | on the example feed, any range holding 2023-01-03 gives the lines `20230103 08:00:00` then `20230103 08:05:00`, and any other range finds no service date |
| Scenario.MainStreetScenario | menetrendbol_indulasok.py:206-234 | on the example feed, 2023-01-01 through 2023-01-05 gives the lines `20230103 08:00:00` then `20230103 08:05:00` |

## Left out

- Opening files, CSV tokenising and the progress messages. Each file is
  given as a `Table` of already split rows.
- Writing the output file (lines 231-234). The result is the list of lines
  to be written, and newlines and file encoding are not modelled.
- The `-h` help text, `getopt` parsing, the printed option values and the
  process exit codes. A failure is a `Result` value, and the exit code
  (0 for a failed lookup, 1 for a duplicate date) is not kept.
- `datetime.strptime` parsing of the date arguments. The bounds are given as
  valid `Date` values. A malformed date string, which makes the script raise
  `ValueError`, is not modelled.
- The upper limit of `datetime` at year 9999. `strptime` cannot parse a
  later date, so in the script both bounds, and every day walked between
  them, lie in years 1 to 9999. `Dates.Valid` also admits later years,
  which the script never sees.
- Departures.GetRouteId: requires every routes row to have both columns,
  while the script only indexes the rows up to the first match. A short row
  after the match does not crash the script but is excluded here. The stop
  and trip lookups require only the cells their tests read, in short-circuit
  order. The calendar join requires its cells only on the rows up to the
  first duplicate date. The stop-times scan reads every named cell of every
  row, so its requirement is exactly what the script needs in order not to
  raise `IndexError` or `KeyError`. The whole run requires each file's cells
  only once the stages before it have succeeded.
- Ordering.SortLines: an insertion sort into a sequence stands in for
  Timsort. Only the result is modelled, which is unique by
  `Ordering.SortedUnique`.
- Departures.InvertDateMap and Departures.GetStoptimes: these pick keys and
  set elements in an unspecified order, where Python uses insertion and
  hash order. Their results are sets and maps, so the order does not show.
- The script stores one `set` object under every date of a service and
  mutates the trip sets it builds. Such aliasing is not modelled, because
  the model's sets are values.
- `print_mrt_timestamps.py` is not part of this model.
