/**
 * `add_bikes_allowed`: add the GTFS column `bikes_allowed` to trips.txt, or,
 * when it is already there and `exists_ok` is set, try to turn undefined
 * values into "allowed". The rows are the parsed CSV file, row 0 the header.
 *
 * The `exists_ok` branch is modelled as the code is written, and that code
 * cannot succeed: `possible_values` holds the string '' and the integers
 * 0, 1 and 2, a cell is a string, so only '' passes the membership test, no
 * cell ever equals the integer 0, nothing is rewritten, and the report then
 * divides by the zero count of rewritten cells.
 */
module Bikes {
  import opened GtfsBase

  const BikesAllowed := "bikes_allowed"

  /** The Python values `possible_values` mixes: strings and integers. */
  datatype PyValue = Str(s: string) | Int(i: int)

  /** `['', 0, 1, 2]`: one string and three integers. */
  const PossibleValues: seq<PyValue> := [Str(""), Int(0), Int(1), Int(2)]

  /** `header.index(name)`: the first position of `name`. */
  function IndexOf(header: seq<string>, name: string): (i: nat)
    requires name in header
    ensures i < |header| && header[i] == name
    ensures forall j :: 0 <= j < i ==> header[j] != name
  {
    if header[0] == name then 0 else 1 + IndexOf(header[1..], name)
  }

  /** `row` with the cell at `idx` set to `v`, when that cell exists. */
  function SetCell(row: seq<string>, idx: int, v: string): seq<string> {
    if 0 <= idx < |row| then row[idx := v] else row
  }

  /** `rows` with the cell at `idx` of row `k` set to `v`, when that cell exists. */
  function SetCellAt(rows: Table, k: int, idx: int, v: string): Table {
    if 0 <= k < |rows| then rows[k := SetCell(rows[k], idx, v)] else rows
  }

  // ---------------------------------------------------------------------
  // What the loops over `data[1:]` do, row by row, as functions of the rows
  // seen so far (the last row is the one the loop handles last)

  /** Every row with `cell` appended at its end. */
  function AppendToEach(rows: Table, cell: string): (r: Table)
    ensures |r| == |rows|
    ensures forall k :: 0 <= k < |rows| ==> r[k] == rows[k] + [cell]
    decreases |rows|
  {
    if rows == [] then []
    else AppendToEach(rows[..|rows| - 1], cell) + [rows[|rows| - 1] + [cell]]
  }

  /** The exception the `exists_ok` loop raises on `row`, if any. */
  function RowError(row: seq<string>, idx: nat): Option<Error> {
    if |row| <= idx then Some(IndexOutOfRange)
    else if Str(row[idx]) !in PossibleValues then Some(UnexpectedValue(row[idx]))
    else None
  }

  /** The first exception the `exists_ok` loop raises on `rows`, if any. */
  function FirstRowError(rows: Table, idx: nat): Option<Error>
    decreases |rows|
  {
    if rows == [] then None
    else match FirstRowError(rows[..|rows| - 1], idx)
      case Some(e) => Some(e)
      case None => RowError(rows[|rows| - 1], idx)
  }

  /** `value == 0` on a cell: a string compared with an integer. */
  predicate EqualsIntZero(value: PyValue) {
    value == Int(0)
  }

  /** The cell is rewritten to '1' by the `exists_ok` loop. */
  predicate Rewritten(row: seq<string>, idx: nat) {
    idx < |row| && EqualsIntZero(Str(row[idx]))
  }

  /** `replaced_ct` after the loop has seen `rows`. */
  function ReplacedCount(rows: Table, idx: nat): (n: nat)
    ensures n <= |rows|
    decreases |rows|
  {
    if rows == [] then 0
    else ReplacedCount(rows[..|rows| - 1], idx) + (if Rewritten(rows[|rows| - 1], idx) then 1 else 0)
  }

  /** The rows after the `exists_ok` loop has rewritten them. */
  function Replaced(rows: Table, idx: nat): (r: Table)
    ensures |r| == |rows|
    ensures forall k :: 0 <= k < |rows| ==>
      r[k] == if Rewritten(rows[k], idx) then rows[k][idx := "1"] else rows[k]
    decreases |rows|
  {
    if rows == [] then []
    else
      var row := rows[|rows| - 1];
      Replaced(rows[..|rows| - 1], idx) + [if Rewritten(row, idx) then SetCell(row, idx, "1") else row]
  }

  /**
   * The `exists_ok` branch on the parsed rows, `idx` being the column's index:
   * the loop's first exception, or the report's division by `replaced_ct`, or
   * the rewritten rows.
   */
  function UndefinedReplaced(data: Table, idx: nat): Result<Table>
    requires |data| > 0
  {
    match FirstRowError(data[1..], idx)
    case Some(e) => Failure(e)
    case None =>
      if ReplacedCount(data[1..], idx) == 0 then Failure(DivisionByZero)
      else Success([data[0]] + Replaced(data[1..], idx))
  }

  /** What `add_bikes_allowed` does to the parsed rows: the new rows, or the exception. */
  function BikesAllowedAdded(data: Table, existsOk: bool): Result<Table> {
    if |data| == 0 then Failure(MissingHeader)
    else if BikesAllowed !in data[0] then
      Success([data[0] + [BikesAllowed]] + AppendToEach(data[1..], "1"))
    else if !existsOk then Failure(ColumnExists)
    else UndefinedReplaced(data, IndexOf(data[0], BikesAllowed))
  }

  // ---------------------------------------------------------------------
  // The code

  /** `add_bikes_allowed` on the parsed rows. */
  method AddBikesAllowed(data: Table, existsOk: bool) returns (r: Result<Table>)
    ensures r == BikesAllowedAdded(data, existsOk)
  {
    if |data| == 0 {
      return Failure(MissingHeader);
    }
    var header := data[0];
    if BikesAllowed in header {
      if existsOk {
        r := ReplaceUndefined(data, IndexOf(header, BikesAllowed));
      } else {
        r := Failure(ColumnExists);
      }
    } else {
      var table := AppendColumn(data);
      assert table == [table[0]] + table[1..];
      r := Success(table);
    }
  }

  /**
   * The branch without the column: append it to the header, then append '1'
   * to each data row in turn.
   */
  method AppendColumn(data: Table) returns (table: Table)
    requires |data| > 0
    ensures |table| == |data|
    ensures table[0] == data[0] + [BikesAllowed]
    ensures table[1..] == AppendToEach(data[1..], "1")
  {
    table := data[0 := data[0] + [BikesAllowed]];
    for k := 1 to |table|
      invariant |table| == |data| && table[0] == data[0] + [BikesAllowed]
      invariant table[k..] == data[k..]
      invariant table[1..k] == AppendToEach(data[1..k], "1")
    {
      assert data[1..k + 1][..k - 1] == data[1..k];
      assert AppendToEach(data[1..k + 1], "1") == AppendToEach(data[1..k], "1") + [data[k] + ["1"]];
      table := table[k := table[k] + ["1"]];
      assert table[1..k + 1] == table[1..k] + [table[k]];
    }
    assert data[1..|data|] == data[1..];
    assert table[1..] == table[1..|table|];
  }

  /**
   * The `exists_ok` branch: check each data row's cell against
   * `possible_values`, rewrite the cells equal to 0 and count them, then
   * report the share of rewritten cells.
   */
  method ReplaceUndefined(data: Table, idx: nat) returns (r: Result<Table>)
    requires |data| > 0
    ensures r == UndefinedReplaced(data, idx)
  {
    var table := data;
    var replacedCt := 0;
    for k := 1 to |table|
      invariant |table| == |data| && table[0] == data[0]
      invariant table[k..] == data[k..]
      invariant table[1..k] == Replaced(data[1..k], idx)
      invariant FirstRowError(data[1..k], idx) == None
      invariant replacedCt == ReplacedCount(data[1..k], idx)
    {
      assert data[1..k + 1][..k - 1] == data[1..k];
      assert data[1..][..k] == data[1..k + 1];
      assert table[k] == data[k];
      if |table[k]| <= idx {
        FirstRowErrorPersists(data[1..], k, idx);
        return Failure(IndexOutOfRange);
      }
      var value := Str(table[k][idx]);
      if value !in PossibleValues {
        FirstRowErrorPersists(data[1..], k, idx);
        return Failure(UnexpectedValue(table[k][idx]));
      }
      assert !Rewritten(data[k], idx);
      assert Replaced(data[1..k + 1], idx) == Replaced(data[1..k], idx) + [data[k]];
      assert ReplacedCount(data[1..k + 1], idx) == ReplacedCount(data[1..k], idx);
      assert FirstRowError(data[1..k + 1], idx) == None;
      if EqualsIntZero(value) {
        // Never taken: the cell is a string and 0 an integer.
        table := SetCellAt(table, k, idx, "1");
        replacedCt := replacedCt + 1;
      }
      assert table[1..k + 1] == table[1..k] + [table[k]];
    }
    assert data[1..|data|] == data[1..];
    assert table[1..] == table[1..|table|];
    if replacedCt == 0 {
      return Failure(DivisionByZero);
    }
    return Success([table[0]] + table[1..]);
  }

  // ---------------------------------------------------------------------
  // Properties

  /** Once the loop has raised on a prefix of the rows, the rest does not matter. */
  lemma {:induction false} FirstRowErrorPersists(rows: Table, n: nat, idx: nat)
    requires n <= |rows|
    requires FirstRowError(rows[..n], idx).Some?
    ensures FirstRowError(rows, idx) == FirstRowError(rows[..n], idx)
    decreases |rows|
  {
    if n < |rows| {
      var init := rows[..|rows| - 1];
      assert init[..n] == rows[..n];
      FirstRowErrorPersists(init, n, idx);
    } else {
      assert rows[..n] == rows;
    }
  }

  /** Of the values in `possible_values`, a cell can only ever equal ''. */
  lemma OnlyEmptyIsPossible(v: string)
    ensures Str(v) in PossibleValues <==> v == ""
    ensures !EqualsIntZero(Str(v))
  {
  }

  /** The loop passes every row exactly when each has the column and it is ''. */
  lemma {:induction false} NoRowErrorIffAllEmpty(rows: Table, idx: nat)
    ensures FirstRowError(rows, idx) == None <==>
      forall k :: 0 <= k < |rows| ==> idx < |rows[k]| && rows[k][idx] == ""
    decreases |rows|
  {
    if rows != [] {
      var init := rows[..|rows| - 1];
      NoRowErrorIffAllEmpty(init, idx);
      assert forall k :: 0 <= k < |init| ==> init[k] == rows[k];
    }
  }

  /** The loop raises at the first row that lacks the column or holds something other than ''. */
  lemma {:induction false} FirstBadRowRaises(rows: Table, idx: nat, k: nat)
    requires k < |rows|
    requires forall j :: 0 <= j < k ==> idx < |rows[j]| && rows[j][idx] == ""
    requires !(idx < |rows[k]| && rows[k][idx] == "")
    ensures FirstRowError(rows, idx) ==
      Some(if |rows[k]| <= idx then IndexOutOfRange else UnexpectedValue(rows[k][idx]))
  {
    var init := rows[..k];
    NoRowErrorIffAllEmpty(init, idx);
    assert rows[..k + 1][..k] == init;
    FirstRowErrorPersists(rows, k + 1, idx);
  }

  /** No cell is ever rewritten, so `replaced_ct` stays 0. */
  lemma {:induction false} NothingReplaced(rows: Table, idx: nat)
    ensures ReplacedCount(rows, idx) == 0
    decreases |rows|
  {
    if rows != [] {
      NothingReplaced(rows[..|rows| - 1], idx);
    }
  }

  /**
   * Without the column: the header gets `bikes_allowed` at its end, every
   * data row gets '1' at its end, and nothing else changes.
   */
  lemma ColumnAbsentAppended(data: Table, existsOk: bool)
    requires |data| > 0 && BikesAllowed !in data[0]
    ensures var r := BikesAllowedAdded(data, existsOk);
      && r.Success?
      && |r.value| == |data|
      && r.value[0] == data[0] + [BikesAllowed]
      && IndexOf(r.value[0], BikesAllowed) == |data[0]|
      && forall k :: 1 <= k < |data| ==> r.value[k] == data[k] + ["1"]
  {
    var header := data[0] + [BikesAllowed];
    assert header[|data[0]|] == BikesAllowed;
    assert forall j :: 0 <= j < |data[0]| ==> header[j] == data[0][j];
  }

  /**
   * With the column already present, `add_bikes_allowed` never succeeds:
   * without `exists_ok` it refuses the column; with `exists_ok` it fails on
   * the first row whose cell is missing or not '', and otherwise in the
   * report's division, since no cell was rewritten.
   */
  lemma PresentColumnFails(data: Table, existsOk: bool)
    requires |data| > 0 && BikesAllowed in data[0]
    ensures BikesAllowedAdded(data, existsOk).Failure?
    ensures !existsOk ==> BikesAllowedAdded(data, existsOk) == Failure(ColumnExists)
    ensures var idx := IndexOf(data[0], BikesAllowed);
      (existsOk && forall k :: 1 <= k < |data| ==> idx < |data[k]| && data[k][idx] == "")
        ==> BikesAllowedAdded(data, existsOk) == Failure(DivisionByZero)
  {
    NothingReplaced(data[1..], IndexOf(data[0], BikesAllowed));
    var idx := IndexOf(data[0], BikesAllowed);
    NoRowErrorIffAllEmpty(data[1..], idx);
    if forall k :: 1 <= k < |data| ==> idx < |data[k]| && data[k][idx] == "" {
      assert forall k :: 0 <= k < |data[1..]| ==> data[1..][k] == data[k + 1];
    }
  }

  /** With `exists_ok`, the exception names the first data row whose cell is not ''. */
  lemma ExistsOkFirstBadRow(data: Table, k: nat)
    requires |data| > 0 && BikesAllowed in data[0]
    requires 1 <= k < |data|
    requires var idx := IndexOf(data[0], BikesAllowed);
      && (forall j :: 1 <= j < k ==> idx < |data[j]| && data[j][idx] == "")
      && !(idx < |data[k]| && data[k][idx] == "")
    ensures var idx := IndexOf(data[0], BikesAllowed);
      BikesAllowedAdded(data, true) ==
        Failure(if |data[k]| <= idx then IndexOutOfRange else UnexpectedValue(data[k][idx]))
  {
    var idx := IndexOf(data[0], BikesAllowed);
    var rows := data[1..];
    assert forall j :: 0 <= j < |rows| ==> rows[j] == data[j + 1];
    FirstBadRowRaises(rows, idx, k - 1);
  }

  /**
   * Adding the column twice never succeeds: after a successful call the
   * header holds `bikes_allowed`, so the second call fails whatever its flag.
   */
  lemma AddTwiceFails(data: Table, first: bool, second: bool)
    requires BikesAllowedAdded(data, first).Success?
    ensures BikesAllowedAdded(BikesAllowedAdded(data, first).value, second).Failure?
  {
    if BikesAllowed in data[0] {
      PresentColumnFails(data, first);
    }
    ColumnAbsentAppended(data, first);
    var out := BikesAllowedAdded(data, first).value;
    assert out[0][|data[0]|] == BikesAllowed;
    PresentColumnFails(out, second);
  }

  /**
   * With the column present and `exists_ok`, the exception is the first
   * offending row's, and the division by zero when no row offends.
   */
  lemma ExistsOkRaises(data: Table)
    ensures |data| > 0 && BikesAllowed in data[0] ==>
      BikesAllowedAdded(data, true) ==
        Failure(match FirstRowError(data[1..], IndexOf(data[0], BikesAllowed))
                case Some(e) => e
                case None => DivisionByZero)
  {
    if |data| > 0 && BikesAllowed in data[0] {
      NothingReplaced(data[1..], IndexOf(data[0], BikesAllowed));
    }
  }

  /** `add_bikes_allowed` succeeds exactly on rows whose header lacks the column. */
  lemma SucceedsOnlyWithoutColumn(data: Table, existsOk: bool)
    ensures BikesAllowedAdded(data, existsOk).Success? <==> |data| > 0 && BikesAllowed !in data[0]
  {
    if |data| > 0 && BikesAllowed in data[0] {
      PresentColumnFails(data, existsOk);
    }
  }

  /**
   * `TextIOWrapper` and `parse_csv` on the entry: the rows, or the decoding
   * or CSV error.
   */
  function ParsedTrips(trips: Bytes, lib: Library): (r: Result<Table>)
    ensures lib.decodeUtf8(trips).None? ==> r == Failure(DecodeError)
    ensures lib.decodeUtf8(trips).Some? ==>
      (r.Success? <==> lib.parseCsv(lib.decodeUtf8(trips).value).Some?)
    ensures r.Success? ==> r.value == lib.parseCsv(lib.decodeUtf8(trips).value).value
    ensures r.Failure? ==> r.error == DecodeError || r.error == CsvError
  {
    match lib.decodeUtf8(trips)
    case None => Failure(DecodeError)
    case Some(text) =>
      match lib.parseCsv(text)
      case None => Failure(CsvError)
      case Some(data) => Success(data)
  }

  /**
   * The whole of `add_bikes_allowed`: decode the entry, parse it, change the
   * rows, write them back. It succeeds exactly on a file that decodes and
   * parses into rows whose header lacks the column.
   */
  function AddBikesAllowedFile(trips: Bytes, existsOk: bool, lib: Library): (r: Result<string>)
    ensures ParsedTrips(trips, lib).Failure? ==> r == Failure(ParsedTrips(trips, lib).error)
    ensures ParsedTrips(trips, lib).Success? ==>
      var data := ParsedTrips(trips, lib).value;
      && (|data| == 0 ==> r == Failure(MissingHeader))
      && (|data| > 0 && BikesAllowed in data[0] && !existsOk ==> r == Failure(ColumnExists))
      && (|data| > 0 && BikesAllowed in data[0] && existsOk ==>
            r == Failure(match FirstRowError(data[1..], IndexOf(data[0], BikesAllowed))
                         case Some(e) => e
                         case None => DivisionByZero))
      && (r.Success? <==> |data| > 0 && BikesAllowed !in data[0])
      && (r.Success? ==>
            r.value == lib.writeCsv([data[0] + [BikesAllowed]] + AppendToEach(data[1..], "1")))
  {
    match ParsedTrips(trips, lib)
    case Failure(e) => Failure(e)
    case Success(data) =>
      SucceedsOnlyWithoutColumn(data, existsOk);
      ExistsOkRaises(data);
      match BikesAllowedAdded(data, existsOk)
      case Failure(e) => Failure(e)
      case Success(out) => Success(lib.writeCsv(out))
  }
}
