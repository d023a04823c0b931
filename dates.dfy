/** Proleptic Gregorian calendar dates, the day stepping used to walk an
    inclusive date range, and the `YYYYMMDD` keys under which the calendar
    exceptions table names its dates. */
module Dates {

  datatype Date = Date(year: int, month: int, day: int)

  predicate IsLeapYear(y: int) {
    y % 4 == 0 && (y % 100 != 0 || y % 400 == 0)
  }

  function DaysInMonth(y: int, m: int): (n: int)
    requires 1 <= m <= 12
    ensures 28 <= n <= 31
    ensures n == 29 <==> m == 2 && IsLeapYear(y)
  {
    if m == 2 then (if IsLeapYear(y) then 29 else 28)
    else if m == 4 || m == 6 || m == 9 || m == 11 then 30
    else 31
  }

  /** A real calendar date of the common era, as `datetime.strptime` accepts. */
  predicate Valid(d: Date) {
    1 <= d.year && 1 <= d.month <= 12 && 1 <= d.day <= DaysInMonth(d.year, d.month)
  }

  function NextDay(d: Date): (n: Date)
    requires Valid(d)
    ensures Valid(n)
  {
    if d.day < DaysInMonth(d.year, d.month) then Date(d.year, d.month, d.day + 1)
    else if d.month < 12 then Date(d.year, d.month + 1, 1)
    else Date(d.year + 1, 1, 1)
  }

  /** `d + timedelta(days=n)`. */
  function AddDays(d: Date, n: nat): (r: Date)
    requires Valid(d)
    ensures Valid(r)
  {
    if n == 0 then d else NextDay(AddDays(d, n - 1))
  }

  function DaysInYear(y: int): int {
    if IsLeapYear(y) then 366 else 365
  }

  function DaysBeforeYear(y: int): nat
    requires 1 <= y
  {
    if y == 1 then 0 else DaysBeforeYear(y - 1) + DaysInYear(y - 1)
  }

  function DaysBeforeMonth(y: int, m: int): nat
    requires 1 <= m <= 12
  {
    var common :=
      if m == 1 then 0 else if m == 2 then 31 else if m == 3 then 59
      else if m == 4 then 90 else if m == 5 then 120 else if m == 6 then 151
      else if m == 7 then 181 else if m == 8 then 212 else if m == 9 then 243
      else if m == 10 then 273 else if m == 11 then 304 else 334;
    common + (if 2 < m && IsLeapYear(y) then 1 else 0)
  }

  /** Day number with 0001-01-01 as day 1; the difference of two ordinals is
      the `.days` of the difference of the two dates. */
  function Ordinal(d: Date): (o: int)
    requires Valid(d)
    ensures 1 <= o
    ensures o == 1 <==> d == Date(1, 1, 1)
  {
    DaysBeforeYear(d.year) + DaysBeforeMonth(d.year, d.month) + d.day
  }

  lemma MonthStep(y: int, m: int)
    requires 1 <= m < 12
    ensures DaysBeforeMonth(y, m + 1) == DaysBeforeMonth(y, m) + DaysInMonth(y, m)
  {
  }

  lemma YearEnd(y: int)
    ensures DaysBeforeMonth(y, 12) + DaysInMonth(y, 12) == DaysInYear(y)
  {
  }

  /** Stepping to the next day advances the day number by exactly one, across
      month ends, year ends and leap days alike. */
  lemma NextDayOrdinal(d: Date)
    requires Valid(d)
    ensures Ordinal(NextDay(d)) == Ordinal(d) + 1
  {
    if d.day < DaysInMonth(d.year, d.month) {
    } else if d.month < 12 {
      MonthStep(d.year, d.month);
    } else {
      YearEnd(d.year);
      assert DaysBeforeYear(d.year + 1) == DaysBeforeYear(d.year) + DaysInYear(d.year);
    }
  }

  lemma {:induction false} AddDaysOrdinal(d: Date, n: nat)
    requires Valid(d)
    ensures Ordinal(AddDays(d, n)) == Ordinal(d) + n
  {
    if n > 0 {
      AddDaysOrdinal(d, n - 1);
      NextDayOrdinal(AddDays(d, n - 1));
    }
  }

  lemma DayOfYearBounds(d: Date)
    requires Valid(d)
    ensures 1 <= DaysBeforeMonth(d.year, d.month) + d.day <= DaysInYear(d.year)
  {
  }

  lemma {:induction false} YearsAdvance(y1: int, y2: int)
    requires 1 <= y1 < y2
    ensures DaysBeforeYear(y1) + DaysInYear(y1) <= DaysBeforeYear(y2)
  {
    if y1 + 1 < y2 {
      YearsAdvance(y1, y2 - 1);
    }
  }

  lemma {:induction false} MonthsAdvance(y: int, m1: int, m2: int)
    requires 1 <= m1 < m2 <= 12
    ensures DaysBeforeMonth(y, m1) + DaysInMonth(y, m1) <= DaysBeforeMonth(y, m2)
    decreases m2 - m1
  {
    MonthStep(y, m1);
    if m1 + 1 < m2 {
      MonthsAdvance(y, m1 + 1, m2);
    }
  }

  /** Distinct valid dates have distinct day numbers. */
  lemma OrdinalInjective(a: Date, b: Date)
    requires Valid(a) && Valid(b) && Ordinal(a) == Ordinal(b)
    ensures a == b
  {
    DayOfYearBounds(a);
    DayOfYearBounds(b);
    if a.year < b.year {
      YearsAdvance(a.year, b.year);
    } else if b.year < a.year {
      YearsAdvance(b.year, a.year);
    }
    assert a.year == b.year;
    if a.month < b.month {
      MonthsAdvance(a.year, a.month, b.month);
    } else if b.month < a.month {
      MonthsAdvance(a.year, b.month, a.month);
    }
  }

  // ---------------------------------------------------------------------
  // Date keys: str(year) followed by month and day padded to two digits.

  function Digit(n: int): char
    requires 0 <= n < 10
  {
    (48 + n) as char
  }

  /** Decimal notation of `n` without leading zeros, as Python's `str`. */
  function Decimal(n: nat): (s: string)
    ensures 1 <= |s|
    ensures n < 10 <==> |s| == 1
    ensures forall k :: 0 <= k < |s| ==> '0' <= s[k] <= '9'
    ensures s[0] == '0' <==> n == 0
  {
    if n < 10 then [Digit(n)] else Decimal(n / 10) + [Digit(n % 10)]
  }

  /** `"{0:0>2}".format(n)`: right-aligned in two places, filled with '0'. */
  function Pad2(n: int): (s: string)
    requires 0 <= n < 100
    ensures |s| == 2
    ensures '0' <= s[0] <= '9' && '0' <= s[1] <= '9'
    ensures n < 10 <==> s[0] == '0'
  {
    [Digit(n / 10), Digit(n % 10)]
  }

  /** The key of a date: `str(year)` followed by the month and the day
      padded to two digits. */
  function DateKey(d: Date): (k: string)
    requires Valid(d)
    ensures |k| == |Decimal(d.year)| + 4
    ensures forall i :: 0 <= i < |k| ==> '0' <= k[i] <= '9'
  {
    Decimal(d.year) + Pad2(d.month) + Pad2(d.day)
  }

  lemma {:induction false} DecimalInjective(a: nat, b: nat)
    requires Decimal(a) == Decimal(b)
    ensures a == b
  {
    if 10 <= a && 10 <= b {
      var sa, sb := Decimal(a), Decimal(b);
      assert sa[..|sa| - 1] == Decimal(a / 10);
      assert sb[..|sb| - 1] == Decimal(b / 10);
      DecimalInjective(a / 10, b / 10);
      assert sa[|sa| - 1] == Digit(a % 10);
    }
  }

  /** Different dates never share a key, so a key names one date. */
  lemma DateKeyInjective(a: Date, b: Date)
    requires Valid(a) && Valid(b) && DateKey(a) == DateKey(b)
    ensures a == b
  {
    var ka, kb := DateKey(a), DateKey(b);
    var na, nb := |Decimal(a.year)|, |Decimal(b.year)|;
    assert ka[..na] == Decimal(a.year) && ka[na..] == Pad2(a.month) + Pad2(a.day);
    assert kb[..nb] == Decimal(b.year) && kb[nb..] == Pad2(b.month) + Pad2(b.day);
    DecimalInjective(a.year, b.year);
    assert ka[na] == kb[na] && ka[na + 1] == kb[na + 1];
    assert ka[na + 2] == kb[na + 2] && ka[na + 3] == kb[na + 3];
  }

  // ---------------------------------------------------------------------
  // The inclusive range of dates between two bounds.

  /** Number of loop iterations `range(delta.days + 1)` performs. */
  function Span(start: Date, end: Date): nat
    requires Valid(start) && Valid(end)
  {
    if Ordinal(end) < Ordinal(start) then 0 else Ordinal(end) - Ordinal(start) + 1
  }

  /** Keys of the first `count` days starting at `start`. */
  function DaysFrom(start: Date, count: nat): set<string>
    requires Valid(start)
  {
    set i: nat | i < count :: DateKey(AddDays(start, i))
  }

  function DateRange(start: Date, end: Date): set<string>
    requires Valid(start) && Valid(end)
  {
    DaysFrom(start, Span(start, end))
  }

  predicate Between(start: Date, end: Date, d: Date)
    requires Valid(start) && Valid(end)
  {
    Valid(d) && Ordinal(start) <= Ordinal(d) <= Ordinal(end)
  }

  lemma DaysFromStep(start: Date, count: nat)
    requires Valid(start)
    ensures DaysFrom(start, count + 1) == DaysFrom(start, count) + {DateKey(AddDays(start, count))}
  {
    var next := DaysFrom(start, count + 1);
    forall k | k in next ensures k in DaysFrom(start, count) + {DateKey(AddDays(start, count))} {
      var i: nat :| i < count + 1 && k == DateKey(AddDays(start, i));
      if i < count {
        assert k in DaysFrom(start, count);
      }
    }
  }

  /** Expands a date range by collecting the key of `start + i` days for every
      `i` from 0 through the difference of the bounds. */
  method ExpandDates(start: Date, end: Date) returns (days: set<string>)
    requires Valid(start) && Valid(end)
    ensures days == DateRange(start, end)
  {
    var delta := Ordinal(end) - Ordinal(start);
    days := {};
    var i := 0;
    while i < delta + 1
      invariant 0 <= i && (i <= delta + 1 || i == 0)
      invariant days == DaysFrom(start, i)
    {
      var cday := AddDays(start, i);
      DaysFromStep(start, i);
      days := days + {DateKey(cday)};
      i := i + 1;
    }
  }

  /** The range is inclusive at both ends: its keys are exactly those of the
      valid dates from `start` through `end`. */
  lemma DateRangeInclusive(start: Date, end: Date)
    requires Valid(start) && Valid(end)
    ensures forall k :: k in DateRange(start, end) <==>
              exists d :: Between(start, end, d) && k == DateKey(d)
  {
    forall k | k in DateRange(start, end)
      ensures exists d :: Between(start, end, d) && k == DateKey(d)
    {
      var i: nat :| i < Span(start, end) && k == DateKey(AddDays(start, i));
      AddDaysOrdinal(start, i);
      assert Between(start, end, AddDays(start, i));
    }
    forall k, d | Between(start, end, d) && k == DateKey(d)
      ensures k in DateRange(start, end)
    {
      var i: nat := Ordinal(d) - Ordinal(start);
      AddDaysOrdinal(start, i);
      OrdinalInjective(AddDays(start, i), d);
      assert k == DateKey(AddDays(start, i));
    }
  }

  lemma {:induction false} DaysFromSize(start: Date, count: nat)
    requires Valid(start)
    ensures |DaysFrom(start, count)| == count
  {
    if count > 0 {
      var n := count - 1;
      DaysFromSize(start, n);
      DaysFromStep(start, n);
      var last := DateKey(AddDays(start, n));
      if last in DaysFrom(start, n) {
        var i: nat :| i < n && last == DateKey(AddDays(start, i));
        DateKeyInjective(AddDays(start, i), AddDays(start, n));
        AddDaysOrdinal(start, i);
        AddDaysOrdinal(start, n);
        assert false;
      }
    }
  }

  /** The range holds one key per day: the difference of the bounds plus one,
      or none when the end lies before the start. */
  lemma DateRangeSize(start: Date, end: Date)
    requires Valid(start) && Valid(end)
    ensures Ordinal(start) <= Ordinal(end) ==> |DateRange(start, end)| == Ordinal(end) - Ordinal(start) + 1
    ensures Ordinal(end) < Ordinal(start) ==> DateRange(start, end) == {}
  {
    DaysFromSize(start, Span(start, end));
  }

  lemma DateRangeSingleDay(d: Date)
    requires Valid(d)
    ensures DateRange(d, d) == {DateKey(d)}
  {
    DaysFromStep(d, 0);
  }
}
