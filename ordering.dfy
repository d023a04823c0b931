/** Python's ordering of `str` values and the sorted, duplicate-free list of
    departure lines the script writes. */
module Ordering {

  /** `a < b` on Python strings: the first differing character decides by
      code point, and a proper prefix comes first. */
  predicate Below(a: string, b: string)
    decreases |a|
  {
    0 < |b| && (|a| == 0 || a[0] < b[0] || (a[0] == b[0] && Below(a[1..], b[1..])))
  }

  lemma {:induction false} BelowIrreflexive(a: string)
    ensures !Below(a, a)
  {
    if 0 < |a| {
      BelowIrreflexive(a[1..]);
    }
  }

  lemma {:induction false} BelowTransitive(a: string, b: string, c: string)
    requires Below(a, b) && Below(b, c)
    ensures Below(a, c)
  {
    if 0 < |a| && a[0] == b[0] && b[0] == c[0] {
      BelowTransitive(a[1..], b[1..], c[1..]);
    }
  }

  /** Any two different strings are ordered one way or the other. */
  lemma {:induction false} BelowTotal(a: string, b: string)
    requires a != b
    ensures Below(a, b) || Below(b, a)
  {
    if 0 < |a| && 0 < |b| && a[0] == b[0] {
      assert a == [a[0]] + a[1..] && b == [b[0]] + b[1..];
      BelowTotal(a[1..], b[1..]);
    }
  }

  predicate StrictlySorted(lines: seq<string>) {
    forall i, j :: 0 <= i < j < |lines| ==> Below(lines[i], lines[j])
  }

  lemma InsertSorted(lines: seq<string>, k: int, x: string)
    requires StrictlySorted(lines) && 0 <= k <= |lines|
    requires forall j :: 0 <= j < k ==> Below(lines[j], x)
    requires k < |lines| ==> Below(x, lines[k])
    ensures StrictlySorted(lines[..k] + [x] + lines[k..])
  {
    var r := lines[..k] + [x] + lines[k..];
    forall i, j | 0 <= i < j < |r| ensures Below(r[i], r[j]) {
      if i == k && k < j - 1 {
        BelowTransitive(x, lines[k], lines[j - 1]);
      }
    }
  }

  /** The lines of `sorted(stamps)`: every stamp once, in ascending order. */
  method SortLines(stamps: set<string>) returns (lines: seq<string>)
    ensures StrictlySorted(lines)
    ensures forall x :: x in lines <==> x in stamps
    ensures |lines| == |stamps|
    ensures forall i, j :: 0 <= i < j < |lines| ==> lines[i] != lines[j]
  {
    lines := [];
    var rest := stamps;
    while rest != {}
      invariant rest <= stamps
      invariant StrictlySorted(lines)
      invariant forall x :: x in lines <==> x in stamps && x !in rest
      invariant |lines| == |stamps - rest|
      decreases rest
    {
      var x :| x in rest;
      var k := 0;
      while k < |lines| && Below(lines[k], x)
        invariant 0 <= k <= |lines|
        invariant forall j :: 0 <= j < k ==> Below(lines[j], x)
      {
        k := k + 1;
      }
      if k < |lines| {
        BelowTotal(x, lines[k]);
      }
      InsertSorted(lines, k, x);
      assert stamps - (rest - {x}) == (stamps - rest) + {x};
      lines := lines[..k] + [x] + lines[k..];
      rest := rest - {x};
    }
    forall i, j | 0 <= i < j < |lines| ensures lines[i] != lines[j] {
      BelowIrreflexive(lines[i]);
    }
  }

  /** Two strictly sorted lists of the same strings are the same list: the
      written output depends only on the set of departures. */
  lemma {:induction false} SortedUnique(a: seq<string>, b: seq<string>)
    requires StrictlySorted(a) && StrictlySorted(b)
    requires forall x :: x in a <==> x in b
    ensures a == b
  {
    assert a == [] <==> b == [] by {
      if a != [] { assert a[0] in a; }
      if b != [] { assert b[0] in b; }
    }
    if a != [] {
      if a[0] != b[0] {
        assert a[0] in b && b[0] in a;
        var i :| 0 <= i < |b| && b[i] == a[0];
        var j :| 0 <= j < |a| && a[j] == b[0];
        BelowIrreflexive(a[0]);
        BelowIrreflexive(b[0]);
        if 0 < j && 0 < i {
          BelowTransitive(a[0], a[j], b[i]);
        }
        assert false;
      }
      forall x ensures x in a[1..] <==> x in b[1..] {
        if x in a[1..] {
          var k :| 1 <= k < |a| && a[k] == x;
          BelowIrreflexive(a[0]);
          assert a[k] in a;
          var m :| 0 <= m < |b| && b[m] == x;
          assert b[1..][m - 1] == x;
        }
        if x in b[1..] {
          var k :| 1 <= k < |b| && b[k] == x;
          BelowIrreflexive(b[0]);
          assert b[k] in b;
          var m :| 0 <= m < |a| && a[m] == x;
          assert a[1..][m - 1] == x;
        }
      }
      SortedUnique(a[1..], b[1..]);
    }
  }
}
