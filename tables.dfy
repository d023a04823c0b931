/** Flat GTFS tables, already split into cells: a header row naming the
    columns and the data rows. Columns are addressed by name through a map
    from column name to position built from the header. */
module Tables {

  datatype Table = Table(header: seq<string>, rows: seq<seq<string>>)

  /** Position of the last occurrence of `name` in `header`, or -1 when the
      header does not name it. Filling a dictionary with `header[i] := i`
      from left to right leaves exactly this position behind. */
  function LastIndex(header: seq<string>, name: string): (i: int)
    ensures -1 <= i < |header|
    ensures 0 <= i ==> header[i] == name
    ensures forall j :: i < j < |header| ==> header[j] != name
  {
    if |header| == 0 then -1
    else if header[|header| - 1] == name then |header| - 1
    else LastIndex(header[..|header| - 1], name)
  }

  function Column(t: Table, name: string): int {
    LastIndex(t.header, name)
  }

  /** Row `i` exists, the header names `name` and the row is long enough to
      hold that column. The script indexes rows without checking either and
      stops with an uncaught error when one fails. */
  predicate HasCell(t: Table, i: int, name: string) {
    0 <= i < |t.rows| && 0 <= Column(t, name) < |t.rows[i]|
  }

  /** Every data row holds the column `name`. */
  predicate HasColumn(t: Table, name: string) {
    forall i :: 0 <= i < |t.rows| ==> HasCell(t, i, name)
  }

  /** The cell of row `i` in the column called `name`. */
  function Cell(t: Table, i: int, name: string): string
    requires HasCell(t, i, name)
  {
    t.rows[i][Column(t, name)]
  }

  /** Builds the column-name to index map of a header row by assigning each
      position in turn, so a repeated name keeps its last position. */
  method HeaderIndex(header: seq<string>) returns (index: map<string, nat>)
    ensures forall name :: name in index <==> name in header
    ensures forall name :: name in index ==>
              && index[name] < |header|
              && header[index[name]] == name
              && forall j :: index[name] < j < |header| ==> header[j] != name
    ensures forall name :: name in index ==> index[name] == LastIndex(header, name)
  {
    index := map[];
    for idx := 0 to |header|
      invariant forall name :: name in index <==> name in header[..idx]
      invariant forall name :: name in index ==> index[name] == LastIndex(header[..idx], name)
    {
      assert header[..idx + 1][..idx] == header[..idx];
      index := index[header[idx] := idx];
    }
    assert header[..|header|] == header;
  }

  /** The value `HeaderIndex` stores for a column the table has is that
      column's position, so looking it up reads the intended cell. */
  lemma IndexedCell(t: Table, index: map<string, nat>, name: string, i: int)
    requires HasCell(t, i, name)
    requires forall n :: n in index <==> n in t.header
    requires forall n :: n in index ==> index[n] == LastIndex(t.header, n)
    ensures name in index && index[name] < |t.rows[i]|
    ensures t.rows[i][index[name]] == Cell(t, i, name)
  {
    assert t.header[Column(t, name)] == name;
  }
}
