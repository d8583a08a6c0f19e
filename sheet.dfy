/**
 * The row logic of reading and writing the routes sheet, with the spreadsheet
 * library taken away: a sheet is its rows, top to bottom, each a sequence of
 * cell texts (an empty cell is the empty string).
 *
 * Reading finds the header row (the first row with a cell "N° ROTA" or
 * "NUMERO"), takes its trimmed cells as column names, zips every later row
 * against them and keeps the rows with a non-blank route number. Writing puts
 * two fixed banner rows, the header row and one row per record.
 */
module Sheet {
  import opened Wrappers
  import opened Text
  import opened Routes

  type Row = seq<string>

  // ------------------------------------------------------------ the header

  /** A cell that marks the header row, and a column holding the route number. */
  predicate IsMarker(cell: string) {
    cell == RouteNumber || cell == NumberAlias
  }

  /** The header test of the reader: compares untrimmed cells. */
  predicate IsHeaderRow(row: Row) {
    RouteNumber in row || NumberAlias in row
  }

  /** The index of the first header row, if any. */
  function HeaderIndex(rows: seq<Row>): (r: Option<nat>)
    ensures r.Some? ==> r.value < |rows| && IsHeaderRow(rows[r.value])
                        && forall j :: 0 <= j < r.value ==> !IsHeaderRow(rows[j])
    ensures r.None? ==> forall j :: 0 <= j < |rows| ==> !IsHeaderRow(rows[j])
  {
    if rows == [] then None
    else if IsHeaderRow(rows[0]) then Some(0)
    else
      match HeaderIndex(rows[1..])
      case None =>
        assert forall j :: 1 <= j < |rows| ==> rows[j] == rows[1..][j - 1];
        None
      case Some(i) =>
        assert forall j :: 1 <= j <= i ==> rows[j] == rows[1..][j - 1];
        Some(i + 1)
  }

  /** The column names taken from the header row: its cells, trimmed. */
  function HeadersOf(row: Row): (h: seq<string>)
    ensures |h| == |row|
    ensures forall i :: 0 <= i < |row| ==> h[i] == Trim(row[i])
  {
    seq(|row|, i requires 0 <= i < |row| => Trim(row[i]))
  }

  // ------------------------------------------------------------ the records

  /** `rowValues[i] || ''`: a cell past the end of the row reads as empty. */
  function Cell(row: Row, i: nat): string {
    if i < |row| then row[i] else ""
  }

  /**
   * The record a data row makes: column `headers[j]` gets cell `j`, assigned
   * left to right, so of two equal column names the later one's cell stays.
   */
  function RowRecord(headers: seq<string>, row: Row): Record
    decreases |headers|
  {
    if headers == [] then map[]
    else
      var n := |headers| - 1;
      RowRecord(headers[..n], row)[headers[n] := Cell(row, n)]
  }

  /** The record has exactly the header names as columns. */
  lemma {:induction false} RowRecordKeys(headers: seq<string>, row: Row)
    ensures forall k :: k in RowRecord(headers, row) <==> k in headers
    decreases |headers|
  {
    if headers != [] {
      var n := |headers| - 1;
      RowRecordKeys(headers[..n], row);
      assert headers == headers[..n] + [headers[n]];
    }
  }

  /** `j` is the last position of its column name. */
  predicate IsLastOf(headers: seq<string>, j: nat) {
    j < |headers| && forall j' :: j < j' < |headers| ==> headers[j'] != headers[j]
  }

  /** A column gets the cell under its last occurrence among the headers. */
  lemma {:induction false} RowRecordAt(headers: seq<string>, row: Row, j: nat)
    requires IsLastOf(headers, j)
    ensures headers[j] in RowRecord(headers, row) && RowRecord(headers, row)[headers[j]] == Cell(row, j)
    decreases |headers|
  {
    var n := |headers| - 1;
    RowRecordKeys(headers, row);
    if j < n {
      assert headers[n] != headers[j];
      assert IsLastOf(headers[..n], j);
      RowRecordAt(headers[..n], row, j);
    }
  }

  /**
   * The flag the reader raises while zipping, scanning the columns from `j`
   * on: some route-number column gets a cell that is not blank (trimming it
   * leaves something, see `TrimEmpty`).
   */
  predicate FlagFrom(headers: seq<string>, row: Row, j: nat)
    decreases |headers| - j
  {
    j < |headers| && ((IsMarker(headers[j]) && !IsBlank(Cell(row, j))) || FlagFrom(headers, row, j + 1))
  }

  predicate HasRouteNumber(headers: seq<string>, row: Row) {
    FlagFrom(headers, row, 0)
  }

  /** The flag is raised exactly when some route-number column has a non-blank cell. */
  lemma {:induction false} FlagIndex(headers: seq<string>, row: Row, j: nat)
    ensures FlagFrom(headers, row, j) <==>
            exists i :: j <= i < |headers| && IsMarker(headers[i]) && !IsBlank(Cell(row, i))
    decreases |headers| - j
  {
    if j < |headers| {
      FlagIndex(headers, row, j + 1);
    }
  }

  /** The records of the data rows whose flag is raised, in row order. */
  function KeptRecords(headers: seq<string>, rows: seq<Row>): seq<Record>
  {
    if rows == [] then []
    else
      var last := rows[|rows| - 1];
      KeptRecords(headers, rows[..|rows| - 1])
        + (if HasRouteNumber(headers, last) then [RowRecord(headers, last)] else [])
  }

  /**
   * Every kept record is the record of a flagged row, and every flagged row's
   * record is kept.
   */
  lemma {:induction false} KeptRecordsSpec(headers: seq<string>, rows: seq<Row>)
    ensures |KeptRecords(headers, rows)| <= |rows|
    ensures forall r :: r in KeptRecords(headers, rows) ==>
              exists i :: 0 <= i < |rows| && HasRouteNumber(headers, rows[i]) && r == RowRecord(headers, rows[i])
    ensures forall i :: 0 <= i < |rows| && HasRouteNumber(headers, rows[i]) ==>
              RowRecord(headers, rows[i]) in KeptRecords(headers, rows)
  {
    if rows != [] {
      var n := |rows| - 1;
      KeptRecordsSpec(headers, rows[..n]);
      assert forall i :: 0 <= i < n ==> rows[..n][i] == rows[i];
    }
  }

  /** When every row is flagged, the records are the rows' records, one for one. */
  lemma {:induction false} KeptAll(headers: seq<string>, rows: seq<Row>)
    requires forall i :: 0 <= i < |rows| ==> HasRouteNumber(headers, rows[i])
    ensures |KeptRecords(headers, rows)| == |rows|
    ensures forall i :: 0 <= i < |rows| ==> KeptRecords(headers, rows)[i] == RowRecord(headers, rows[i])
  {
    if rows != [] {
      var n := |rows| - 1;
      KeptAll(headers, rows[..n]);
      assert HasRouteNumber(headers, rows[n]);
      assert KeptRecords(headers, rows) == KeptRecords(headers, rows[..n]) + [RowRecord(headers, rows[n])];
    }
  }

  /** No route-number column name occurs twice among the headers. */
  predicate NoRepeatedMarker(headers: seq<string>) {
    forall i, j :: 0 <= i < j < |headers| && IsMarker(headers[i]) ==> headers[j] != headers[i]
  }

  /**
   * With no repeated route-number column, every kept record holds a
   * route-number column whose value is not blank once trimmed.
   */
  lemma KeptHaveRouteNumber(headers: seq<string>, rows: seq<Row>)
    requires NoRepeatedMarker(headers)
    ensures forall r :: r in KeptRecords(headers, rows) ==>
              exists k :: IsMarker(k) && k in r && Trim(r[k]) != ""
  {
    KeptRecordsSpec(headers, rows);
    forall r | r in KeptRecords(headers, rows)
      ensures exists k :: IsMarker(k) && k in r && Trim(r[k]) != ""
    {
      var i :| 0 <= i < |rows| && HasRouteNumber(headers, rows[i]) && r == RowRecord(headers, rows[i]);
      FlagIndex(headers, rows[i], 0);
      var j :| 0 <= j < |headers| && IsMarker(headers[j]) && !IsBlank(Cell(rows[i], j));
      RowRecordAt(headers, rows[i], j);
      TrimEmpty(Cell(rows[i], j));
    }
  }

  /**
   * A repeated route-number column lets a record through with a blank route
   * number: the flag is raised by the first column, whose value the second
   * then overwrites.
   */
  lemma RepeatedMarkerKeepsBlank()
    ensures var headers := [RouteNumber, RouteNumber];
            var row := ["5", ""];
            HasRouteNumber(headers, row) && RowRecord(headers, row)[RouteNumber] == ""
  {
    var headers := [RouteNumber, RouteNumber];
    var row := ["5", ""];
    assert !IsBlank(Cell(row, 0)) by {
      assert !IsSpace(Cell(row, 0)[0]);
    }
    assert IsMarker(headers[0]);
    assert IsLastOf(headers, 1);
    RowRecordAt(headers, row, 1);
  }

  // ---------------------------------------------------------------- loading

  /** The records the reader ends with: none without a header row. */
  function LoadedRoutes(rows: seq<Row>): seq<Record> {
    match HeaderIndex(rows)
    case None => []
    case Some(h) => KeptRecords(HeadersOf(rows[h]), rows[h + 1..])
  }

  /** `r` is the record of a flagged row strictly below row `h`. */
  predicate FromRowBelow(hs: seq<string>, rows: seq<Row>, h: nat, r: Record) {
    exists i :: h < i < |rows| && HasRouteNumber(hs, rows[i]) && r == RowRecord(hs, rows[i])
  }

  /**
   * Without a header row nothing is loaded; otherwise every loaded record is
   * the record of a flagged row strictly below the header row.
   */
  lemma LoadedFromBelowHeader(rows: seq<Row>)
    ensures HeaderIndex(rows).None? ==> LoadedRoutes(rows) == []
    ensures HeaderIndex(rows).Some? ==>
              var h := HeaderIndex(rows).value;
              forall r :: r in LoadedRoutes(rows) ==> FromRowBelow(HeadersOf(rows[h]), rows, h, r)
  {
    if HeaderIndex(rows).Some? {
      var h := HeaderIndex(rows).value;
      var hs := HeadersOf(rows[h]);
      var data := rows[h + 1..];
      assert LoadedRoutes(rows) == KeptRecords(hs, data);
      KeptBelow(hs, rows, h, data);
    }
  }

  /** The records kept from the rows below row `h` come from those rows. */
  lemma KeptBelow(hs: seq<string>, rows: seq<Row>, h: nat, data: seq<Row>)
    requires h < |rows| && data == rows[h + 1..]
    ensures forall r :: r in KeptRecords(hs, data) ==> FromRowBelow(hs, rows, h, r)
  {
    KeptRecordsSpec(hs, data);
    forall r | r in KeptRecords(hs, data)
      ensures FromRowBelow(hs, rows, h, r)
    {
      var i :| 0 <= i < |data| && HasRouteNumber(hs, data[i]) && r == RowRecord(hs, data[i]);
      assert data[i] == rows[h + 1 + i];
    }
  }

  /** After a load that found a header row, one of the column names marks the route number. */
  lemma HeaderHasMarker(rows: seq<Row>)
    requires HeaderIndex(rows).Some?
    ensures exists i :: 0 <= i < |HeadersOf(rows[HeaderIndex(rows).value])|
                        && IsMarker(HeadersOf(rows[HeaderIndex(rows).value])[i])
  {
    var row := rows[HeaderIndex(rows).value];
    var i :| 0 <= i < |row| && IsMarker(row[i]);
    TrimOfTrimmed(RouteNumber);
    TrimOfTrimmed(NumberAlias);
    assert HeadersOf(row)[i] == Trim(row[i]);
  }

  /**
   * A title row above the header row and one data row: the data row is the
   * one record, found by its number and by no other.
   */
  lemma LoadScenario()
    ensures var rows := [["A", "B", "ROTAS..."], [Bus, RouteNumber, RouteName], ["Bus1", "100", "Route X"]];
            var x := map[Bus := "Bus1", RouteNumber := "100", RouteName := "Route X"];
            LoadedRoutes(rows) == [x]
            && FindByNumber(LoadedRoutes(rows), "100") == Some(x)
            && FindByNumber(LoadedRoutes(rows), "999").None?
  {
    var rows := [["A", "B", "ROTAS..."], [Bus, RouteNumber, RouteName], ["Bus1", "100", "Route X"]];
    var hs := [Bus, RouteNumber, RouteName];
    var row := ["Bus1", "100", "Route X"];
    var x := map[Bus := "Bus1", RouteNumber := "100", RouteName := "Route X"];
    ScenarioHeader(rows);
    assert rows[2..] == [row];
    ScenarioRecord(hs, row);
    assert KeptRecords(hs, [row]) == KeptRecords(hs, []) + [x];
    assert LoadedRoutes(rows) == [x];
    assert Upper("100") == "100";
    assert Upper("999") == "999";
  }

  /** The scenario's header row is its second row, and its cells are already trimmed. */
  lemma ScenarioHeader(rows: seq<Row>)
    requires rows == [["A", "B", "ROTAS..."], [Bus, RouteNumber, RouteName], ["Bus1", "100", "Route X"]]
    ensures HeaderIndex(rows) == Some(1) && HeadersOf(rows[1]) == [Bus, RouteNumber, RouteName]
  {
    assert !IsHeaderRow(rows[0]);
    assert IsHeaderRow(rows[1]);
    TrimOfTrimmed(Bus);
    TrimOfTrimmed(RouteNumber);
    TrimOfTrimmed(RouteName);
  }

  /** The scenario's data row is flagged and makes the expected record. */
  lemma ScenarioRecord(hs: seq<string>, row: Row)
    requires hs == [Bus, RouteNumber, RouteName] && row == ["Bus1", "100", "Route X"]
    ensures HasRouteNumber(hs, row)
    ensures RowRecord(hs, row) == map[Bus := "Bus1", RouteNumber := "100", RouteName := "Route X"]
  {
    assert hs[..2][..1] == [Bus] && hs[..1][..0] == [];
    assert RowRecord([Bus], row) == map[Bus := "Bus1"];
    assert RowRecord(hs[..2], row) == map[Bus := "Bus1", RouteNumber := "100"];
    assert !IsBlank(Cell(row, 1)) by {
      assert !IsSpace(Cell(row, 1)[0]);
    }
    FlagIndex(hs, row, 0);
  }

  // ----------------------------------------------------------------- saving

  const Banner1: Row := ["NUMERO", "", "ROTAS ESCOLARES - ATUALIZADO 01/07/25", "", "", "ROTA - MONITORES",
                         "EMPRESAS DE ÔNIBUS", "", "", "", "DATA DE INÍCIO"]
  const Banner2: Row := ["ÔNIBUS", "N° ROTA", "ROTA", "ESCOLAS ATENDIDAS", "TURNO QUE O ÔNIBUS ATENDE", "MONITOR",
                         "MOTORISTAS / CONTATO", "EMPRESA", "KM", "PLACAS - ÔNIBUS", ""]

  /** `headers.map(header => rota[header] || '')`. */
  function DataRow(headers: seq<string>, r: Record): (row: Row)
    ensures |row| == |headers|
    ensures forall j :: 0 <= j < |headers| ==> row[j] == Get(r, headers[j])
  {
    seq(|headers|, j requires 0 <= j < |headers| => Get(r, headers[j]))
  }

  /** The rows the writer puts in the sheet, in order. */
  function SaveRows(headers: seq<string>, routes: seq<Record>): (rows: seq<Row>)
    ensures |rows| == |routes| + 3
    ensures rows[0] == Banner1 && rows[1] == Banner2 && rows[2] == headers
  {
    [Banner1, Banner2, headers] + seq(|routes|, i requires 0 <= i < |routes| => DataRow(headers, routes[i]))
  }

  /** A record seen through the given columns, an absent one read as empty. */
  function Project(headers: seq<string>, r: Record): Record
  {
    map k | k in headers :: Get(r, k)
  }

  lemma ProjectSnoc(front: seq<string>, k: string, r: Record)
    ensures Project(front + [k], r) == Project(front, r)[k := Get(r, k)]
  {
    var a := Project(front + [k], r);
    var b := Project(front, r)[k := Get(r, k)];
    assert forall x :: x in front + [k] <==> x in front || x == k;
    assert a.Keys == b.Keys;
  }

  lemma {:induction false} RecordOfDataRow(headers: seq<string>, r: Record, row: Row)
    requires forall j :: 0 <= j < |headers| ==> Cell(row, j) == Get(r, headers[j])
    ensures RowRecord(headers, row) == Project(headers, r)
    decreases |headers|
  {
    if headers != [] {
      var n := |headers| - 1;
      var front := headers[..n];
      assert forall j :: 0 <= j < n ==> front[j] == headers[j];
      RecordOfDataRow(front, r, row);
      assert headers == front + [headers[n]];
      ProjectSnoc(front, headers[n], r);
    }
  }

  /** The data row of a record with a non-blank route number raises the flag and gives the record back. */
  lemma DataRowReloads(headers: seq<string>, r: Record)
    requires RouteNumber in headers
    requires Trim(Get(r, RouteNumber)) != ""
    ensures HasRouteNumber(headers, DataRow(headers, r))
    ensures RowRecord(headers, DataRow(headers, r)) == Project(headers, r)
  {
    var row := DataRow(headers, r);
    var j :| 0 <= j < |headers| && headers[j] == RouteNumber;
    TrimEmpty(Get(r, RouteNumber));
    assert IsMarker(headers[j]) && !IsBlank(Cell(row, j));
    FlagIndex(headers, row, 0);
    RecordOfDataRow(headers, r, row);
  }

  /** Below its three fixed rows, the written sheet holds the records' data rows. */
  lemma SavedDataRows(headers: seq<string>, routes: seq<Record>)
    ensures SaveRows(headers, routes)[2] == headers
    ensures forall i :: 0 <= i < |routes| ==> SaveRows(headers, routes)[i + 3] == DataRow(headers, routes[i])
  {
  }

  /**
   * Reading back what the writer wrote, from its header row on: when the
   * column names are trimmed and include "N° ROTA" and every record has a
   * non-blank route number, the reader gets every record back, in order, seen
   * through the columns.
   */
  lemma ReloadBelowBanners(headers: seq<string>, routes: seq<Record>)
    requires RouteNumber in headers
    requires forall j :: 0 <= j < |headers| ==> Trim(headers[j]) == headers[j]
    requires forall i :: 0 <= i < |routes| ==> Trim(Get(routes[i], RouteNumber)) != ""
    ensures |LoadedRoutes(SaveRows(headers, routes)[2..])| == |routes|
    ensures forall i :: 0 <= i < |routes| ==> LoadedRoutes(SaveRows(headers, routes)[2..])[i] == Project(headers, routes[i])
  {
    var rows := SaveRows(headers, routes)[2..];
    SavedDataRows(headers, routes);
    assert rows[0] == headers && IsHeaderRow(rows[0]);
    assert HeaderIndex(rows) == Some(0);
    assert HeadersOf(headers) == headers;
    var data := rows[1..];
    assert LoadedRoutes(rows) == KeptRecords(headers, data);
    forall i | 0 <= i < |routes|
      ensures data[i] == DataRow(headers, routes[i])
      ensures HasRouteNumber(headers, data[i])
      ensures RowRecord(headers, data[i]) == Project(headers, routes[i])
    {
      assert data[i] == SaveRows(headers, routes)[i + 3];
      DataRowReloads(headers, routes[i]);
    }
    KeptAll(headers, data);
  }

  /** A column missing from the headers is missing from every kept record. */
  lemma {:induction false} KeptLacksColumn(headers: seq<string>, rows: seq<Row>, k: string)
    requires k !in headers
    ensures forall r :: r in KeptRecords(headers, rows) ==> k !in r
  {
    if rows != [] {
      var n := |rows| - 1;
      KeptLacksColumn(headers, rows[..n], k);
      RowRecordKeys(headers, rows[n]);
    }
  }

  /** The first banner row's cells are already trimmed. */
  lemma BannerTrimmed()
    ensures HeadersOf(Banner1) == Banner1
  {
    CellsTrimmed(Banner1);
  }

  /** A row whose cells neither start nor end with a blank is its own list of column names. */
  lemma CellsTrimmed(row: Row)
    requires forall i :: 0 <= i < |row| ==> row[i] == [] || (!IsSpace(row[i][0]) && !IsSpace(row[i][|row[i]| - 1]))
    ensures HeadersOf(row) == row
  {
    forall i | 0 <= i < |row|
      ensures Trim(row[i]) == row[i]
    {
      TrimOfTrimmed(row[i]);
    }
  }

  /**
   * Reading back what the writer wrote, from the top: the first banner row
   * holds "NUMERO", so the reader takes it for the header row. Its columns
   * do not include "N° ROTA", so no reloaded record has a route number and
   * every lookup by number fails.
   */
  lemma ReloadTakesBannerAsHeader(headers: seq<string>, routes: seq<Record>, key: string)
    ensures HeaderIndex(SaveRows(headers, routes)) == Some(0)
    ensures HeadersOf(SaveRows(headers, routes)[0]) == Banner1
    ensures FindByNumber(LoadedRoutes(SaveRows(headers, routes)), key).None?
  {
    var rows := SaveRows(headers, routes);
    assert rows[0] == Banner1 && IsHeaderRow(Banner1);
    BannerTrimmed();
    assert RouteNumber !in Banner1;
    var loaded := LoadedRoutes(rows);
    assert loaded == KeptRecords(Banner1, rows[1..]);
    KeptLacksColumn(Banner1, rows[1..], RouteNumber);
    assert forall i :: 0 <= i < |loaded| ==> loaded[i] in loaded;
  }
}
