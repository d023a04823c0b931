/** Why sorting the departure lines as strings sorts them in time: with a
    four-digit year and two-digit month and day, the string order of date
    keys is the order of the dates, and a line `key + " " + time` is ordered
    by its date first and its departure time second. */
module Chronology {
  import opened Dates
  import opened Ordering

  /** Comparing two strings that share the length of their first parts
      compares the first parts, then the rest. */
  lemma {:induction false} BelowAppend(x: string, y: string, u: string, v: string)
    requires |x| == |y|
    ensures Below(x + u, y + v) <==> Below(x, y) || (x == y && Below(u, v))
  {
    if |x| == 0 {
      assert x + u == u && y + v == v;
    } else {
      assert (x + u)[0] == x[0] && (x + u)[1..] == x[1..] + u;
      assert (y + v)[0] == y[0] && (y + v)[1..] == y[1..] + v;
      assert x == y <==> x[0] == y[0] && x[1..] == y[1..] by {
        assert x == [x[0]] + x[1..] && y == [y[0]] + y[1..];
      }
      BelowAppend(x[1..], y[1..], u, v);
    }
  }

  lemma DigitOrder(a: int, b: int)
    requires 0 <= a < 10 && 0 <= b < 10
    ensures Below([Digit(a)], [Digit(b)]) <==> a < b
  {
    assert [Digit(a)][1..] == [];
  }

  /** Decimal numerals of equal length compare as the numbers do. */
  lemma {:induction false} DecimalOrder(a: nat, b: nat)
    requires |Decimal(a)| == |Decimal(b)|
    ensures Below(Decimal(a), Decimal(b)) <==> a < b
  {
    if a < 10 {
      DigitOrder(a, b);
    } else {
      BelowAppend(Decimal(a / 10), Decimal(b / 10), [Digit(a % 10)], [Digit(b % 10)]);
      DecimalOrder(a / 10, b / 10);
      DigitOrder(a % 10, b % 10);
      if Decimal(a / 10) == Decimal(b / 10) {
        DecimalInjective(a / 10, b / 10);
      }
    }
  }

  lemma Pad2Order(a: int, b: int)
    requires 0 <= a < 100 && 0 <= b < 100
    ensures Below(Pad2(a), Pad2(b)) <==> a < b
  {
    BelowAppend([Digit(a / 10)], [Digit(b / 10)], [Digit(a % 10)], [Digit(b % 10)]);
    DigitOrder(a / 10, b / 10);
    DigitOrder(a % 10, b % 10);
  }

  lemma FourDigits(y: int)
    requires 1000 <= y <= 9999
    ensures |Decimal(y)| == 4
  {
    assert |Decimal(y / 1000)| == 1;
    assert |Decimal(y / 100)| == 2;
    assert |Decimal(y / 10)| == 3;
  }

  /** Day numbers order dates by year, then month, then day. */
  lemma OrdinalOrder(a: Date, b: Date)
    requires Valid(a) && Valid(b)
    ensures Ordinal(a) < Ordinal(b) <==>
              || a.year < b.year
              || (a.year == b.year && a.month < b.month)
              || (a.year == b.year && a.month == b.month && a.day < b.day)
  {
    DayOfYearBounds(a);
    DayOfYearBounds(b);
    if a.year < b.year {
      YearsAdvance(a.year, b.year);
    } else if b.year < a.year {
      YearsAdvance(b.year, a.year);
    } else if a.month < b.month {
      MonthsAdvance(a.year, a.month, b.month);
    } else if b.month < a.month {
      MonthsAdvance(a.year, b.month, a.month);
    }
  }

  /** For four-digit years, the string order of date keys is the order of
      the dates. */
  lemma DateKeyOrder(a: Date, b: Date)
    requires Valid(a) && Valid(b) && 1000 <= a.year <= 9999 && 1000 <= b.year <= 9999
    ensures |DateKey(a)| == 8
    ensures Below(DateKey(a), DateKey(b)) <==> Ordinal(a) < Ordinal(b)
  {
    FourDigits(a.year);
    FourDigits(b.year);
    var ya, yb := Decimal(a.year), Decimal(b.year);
    assert DateKey(a) == (ya + Pad2(a.month)) + Pad2(a.day);
    assert DateKey(b) == (yb + Pad2(b.month)) + Pad2(b.day);
    BelowAppend(ya + Pad2(a.month), yb + Pad2(b.month), Pad2(a.day), Pad2(b.day));
    BelowAppend(ya, yb, Pad2(a.month), Pad2(b.month));
    DecimalOrder(a.year, b.year);
    Pad2Order(a.month, b.month);
    Pad2Order(a.day, b.day);
    if ya == yb {
      DecimalInjective(a.year, b.year);
    }
    if ya + Pad2(a.month) == yb + Pad2(b.month) {
      assert ya == (ya + Pad2(a.month))[..4] && yb == (yb + Pad2(b.month))[..4];
      assert Pad2(a.month) == (ya + Pad2(a.month))[4..] && Pad2(b.month) == (yb + Pad2(b.month))[4..];
      assert a.month == b.month by {
        assert Pad2(a.month)[0] == Pad2(b.month)[0] && Pad2(a.month)[1] == Pad2(b.month)[1];
      }
    }
    OrdinalOrder(a, b);
  }

  /** An output line sorts before another exactly when its date is earlier,
      or its date is the same and its departure time sorts first. */
  lemma LineOrder(a: Date, b: Date, timeA: string, timeB: string)
    requires Valid(a) && Valid(b) && 1000 <= a.year <= 9999 && 1000 <= b.year <= 9999
    ensures Below(DateKey(a) + " " + timeA, DateKey(b) + " " + timeB) <==>
              Ordinal(a) < Ordinal(b) || (a == b && Below(timeA, timeB))
  {
    DateKeyOrder(a, b);
    DateKeyOrder(b, a);
    assert DateKey(a) + " " + timeA == DateKey(a) + (" " + timeA);
    assert DateKey(b) + " " + timeB == DateKey(b) + (" " + timeB);
    BelowAppend(DateKey(a), DateKey(b), " " + timeA, " " + timeB);
    BelowAppend(" ", " ", timeA, timeB);
    BelowIrreflexive(" ");
    if DateKey(a) == DateKey(b) {
      DateKeyInjective(a, b);
    }
  }
}
