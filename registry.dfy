/**
 * The route manager: the column names and the ordered list of route records
 * held in memory, filled by reading the sheet and changed in place by adding
 * a route or updating one, each change written back to the sheet and undone
 * in memory when writing fails.
 *
 * Reading and writing the file are not modelled: reading hands over the
 * sheet's rows (or nothing, when the file is missing or unreadable), and
 * writing is the rows it would write plus a flag saying whether the write
 * succeeded. The backup copy made before each write cannot change the
 * outcome, since its result is discarded.
 */
module Registry {
  import opened Wrappers
  import opened Text
  import opened Routes
  import opened Sheet

  /** What `adicionarRota` and `atualizarRota` report; only `Added` and `Updated` are successes. */
  datatype Outcome =
    | Added        // "Rota adicionada com sucesso!"
    | Updated      // "Rota atualizada com sucesso!"
    | Duplicate    // "Já existe uma rota com este número"
    | NotFound     // "Rota não encontrada"
    | SaveFailed   // "Erro ao salvar a planilha"
    | Thrown       // "Erro: ..." from the exception caught around the body

  /**
   * The header search of the reader: every row is visited and the first one
   * holding a marker cell is remembered; -1 when there is none.
   */
  method FindHeaderRow(rows: seq<Row>) returns (index: int)
    ensures index == -1 <==> HeaderIndex(rows).None?
    ensures -1 <= index < |rows|
    ensures index >= 0 ==> HeaderIndex(rows) == Some(index as nat)
  {
    index := -1;
    var i := 0;
    while i < |rows|
      invariant 0 <= i <= |rows|
      invariant -1 <= index < i
      invariant index == -1 ==> forall j :: 0 <= j < i ==> !IsHeaderRow(rows[j])
      invariant index >= 0 ==> IsHeaderRow(rows[index]) && forall j :: 0 <= j < index ==> !IsHeaderRow(rows[j])
    {
      if IsHeaderRow(rows[i]) {
        if index == -1 {
          index := i;
        }
      }
      i := i + 1;
    }
  }

  /**
   * Zipping one data row against the column names, left to right, raising the
   * flag when a route-number column gets a cell that is not blank once trimmed.
   */
  method ZipRow(headers: seq<string>, row: Row) returns (rec: Record, flag: bool)
    ensures rec == RowRecord(headers, row)
    ensures flag == HasRouteNumber(headers, row)
  {
    rec := map[];
    flag := false;
    var j := 0;
    while j < |headers|
      invariant 0 <= j <= |headers|
      invariant rec == RowRecord(headers[..j], row)
      invariant flag <==> exists i :: 0 <= i < j && IsMarker(headers[i]) && !IsBlank(Cell(row, i))
    {
      var header := headers[j];
      rec := rec[header := Cell(row, j)];
      TrimEmpty(rec[header]);
      if IsMarker(header) && Trim(rec[header]) != "" {
        flag := true;
      }
      assert headers[..j + 1][..j] == headers[..j];
      j := j + 1;
    }
    assert headers[..j] == headers;
    FlagIndex(headers, row, 0);
  }

  /** The record loop of the reader: the flagged rows strictly below the header row. */
  method CollectRecords(headers: seq<string>, rows: seq<Row>, headerIndex: nat) returns (recs: seq<Record>)
    requires headerIndex < |rows|
    ensures recs == KeptRecords(headers, rows[headerIndex + 1..])
  {
    recs := [];
    var i := 0;
    while i < |rows|
      invariant 0 <= i <= |rows|
      invariant i <= headerIndex + 1 ==> recs == []
      invariant i > headerIndex ==> recs == KeptRecords(headers, rows[headerIndex + 1..i])
    {
      if i > headerIndex {
        var rec, flag := ZipRow(headers, rows[i]);
        assert rows[headerIndex + 1..i + 1][..i - headerIndex - 1] == rows[headerIndex + 1..i];
        if flag {
          recs := recs + [rec];
        }
      }
      i := i + 1;
    }
    assert rows[headerIndex + 1..i] == rows[headerIndex + 1..];
  }

  class RouteRegistry {
    var headers: seq<string>
    var routes: seq<Record>

    /** The registry before the first read: no columns, no routes. */
    constructor ()
      ensures headers == [] && routes == []
    {
      headers := [];
      routes := [];
    }

    /**
     * `carregarPlanilha`. `sheet` is `None` when the file is missing or
     * cannot be read: both lists are emptied. A sheet with no header row
     * empties the routes but keeps the column names it had. Otherwise the
     * column names are the header row's cells, trimmed, and the routes are the
     * flagged rows below it.
     */
    method Load(sheet: Option<seq<Row>>)
      modifies this
      ensures sheet.None? ==> headers == [] && routes == []
      ensures sheet.Some? && HeaderIndex(sheet.value).None? ==> headers == old(headers) && routes == []
      ensures sheet.Some? && HeaderIndex(sheet.value).Some? ==>
                headers == HeadersOf(sheet.value[HeaderIndex(sheet.value).value])
                && routes == LoadedRoutes(sheet.value)
    {
      if sheet.None? {
        routes := [];
        headers := [];
        return;
      }
      var rows := sheet.value;
      var index := FindHeaderRow(rows);
      if index == -1 {
        routes := [];
        return;
      }
      var names := HeadersOf(rows[index]);
      var recs := CollectRecords(names, rows, index);
      assert LoadedRoutes(rows) == recs;
      headers, routes := names, recs;
    }

    /** The rows `salvarPlanilha` writes for the current state. */
    function SavedRows(): seq<Row>
      reads this
    {
      SaveRows(headers, routes)
    }

    /**
     * `adicionarRota`. The duplicate test is exact (case-sensitive); a new
     * record without a route number throws as soon as the search meets a
     * record with one. Otherwise the record is appended and the sheet written
     * (`attempted` is what was written); when the write fails the append is
     * popped, leaving the list exactly as it was.
     */
    method AddRoute(x: Record, writeOk: bool) returns (outcome: Outcome, attempted: Option<seq<Row>>)
      modifies this
      ensures headers == old(headers)
      ensures AddThrows(old(routes), x) ==> outcome == Thrown && routes == old(routes) && attempted.None?
      ensures IsDuplicate(old(routes), x) ==> outcome == Duplicate && routes == old(routes) && attempted.None?
      ensures !AddThrows(old(routes), x) && !IsDuplicate(old(routes), x) ==>
                attempted == Some(SaveRows(headers, old(routes) + [x]))
                && (writeOk ==> outcome == Added && routes == old(routes) + [x])
                && (!writeOk ==> outcome == SaveFailed && routes == old(routes))
    {
      if AddThrows(routes, x) {
        return Thrown, None;
      }
      if IsDuplicate(routes, x) {
        return Duplicate, None;
      }
      routes := routes + [x];
      attempted := Some(SavedRows());
      if writeOk {
        outcome := Added;
      } else {
        routes := routes[..|routes| - 1];
        outcome := SaveFailed;
      }
    }

    /**
     * `atualizarRota`. The record is found by exact route number; each patch
     * field that is one of the column names is written into it in place, the
     * others are ignored; the sheet is written; when the write fails the copy
     * taken beforehand is put back.
     */
    method UpdateRoute(key: string, patch: map<string, string>, writeOk: bool)
      returns (outcome: Outcome, attempted: Option<seq<Row>>)
      modifies this
      ensures headers == old(headers)
      ensures FindIndex(old(routes), key).None? ==> outcome == NotFound && routes == old(routes) && attempted.None?
      ensures FindIndex(old(routes), key).Some? ==>
                var i := FindIndex(old(routes), key).value;
                var changed := old(routes)[i := Patched(old(routes)[i], patch, headers)];
                attempted == Some(SaveRows(headers, changed))
                && (writeOk ==> outcome == Updated && routes == changed)
                && (!writeOk ==> outcome == SaveFailed && routes == old(routes))
    {
      var found := FindIndex(routes, key);
      if found.None? {
        return NotFound, None;
      }
      var index := found.value;
      var original := routes[index];
      var pending := patch.Keys;
      assert patch - pending == map[];
      assert Patched(original, map[], headers) == original;
      while pending != {}
        invariant pending <= patch.Keys
        invariant headers == old(headers)
        invariant routes == old(routes)[index := Patched(original, patch - pending, headers)]
        decreases pending
      {
        var field :| field in pending;
        PatchedStep(original, patch, pending, field, headers);
        if field in headers {
          routes := routes[index := routes[index][field := patch[field]]];
        }
        pending := pending - {field};
      }
      assert patch - {} == patch;
      ghost var changed := old(routes)[index := Patched(original, patch, headers)];
      assert routes == changed;
      attempted := Some(SavedRows());
      if writeOk {
        outcome := Updated;
      } else {
        routes := routes[index := original];
        outcome := SaveFailed;
      }
    }
  }

  /** A route added to an empty registry whose write fails leaves the registry empty. */
  method AddRollbackScenario()
  {
    var registry := new RouteRegistry();
    var outcome, attempted := registry.AddRoute(map[RouteNumber := "200"], false);
    assert outcome == SaveFailed && |registry.routes| == 0;
    assert [] + [map[RouteNumber := "200"]] == [map[RouteNumber := "200"]];
    assert attempted == Some(SaveRows([], [map[RouteNumber := "200"]]));
  }

  /** One more patch field handled: written when it is a column name, skipped otherwise. */
  lemma PatchedStep(r: Record, patch: map<string, string>, pending: set<string>, field: string, headers: seq<string>)
    requires field in pending && pending <= patch.Keys
    ensures Patched(r, patch - (pending - {field}), headers)
            == if field in headers then Patched(r, patch - pending, headers)[field := patch[field]]
               else Patched(r, patch - pending, headers)
  {
    var done := patch - pending;
    var next := patch - (pending - {field});
    assert next.Keys == done.Keys + {field};
    assert next == done[field := patch[field]];
    PatchedOne(r, done, field, patch[field], headers);
  }

  /** Adding one field to a patch adds it to the patched record exactly when it is a column name. */
  lemma PatchedOne(r: Record, p: map<string, string>, f: string, v: string, headers: seq<string>)
    ensures Patched(r, p[f := v], headers)
            == if f in headers then Patched(r, p, headers)[f := v] else Patched(r, p, headers)
  {
    var a := Patched(r, p[f := v], headers);
    var b := if f in headers then Patched(r, p, headers)[f := v] else Patched(r, p, headers);
    assert a.Keys == b.Keys;
    forall k | k in a.Keys
      ensures a[k] == b[k]
    {
    }
  }

  /**
   * After an update, a lookup of the record's route number sees only the
   * columns the patch may change: a column that is not a header, or is not in
   * the patch, keeps its value.
   */
  lemma UpdateTouchesOnlyHeaders(routes: seq<Record>, key: string, patch: map<string, string>, headers: seq<string>, k: string)
    requires FindIndex(routes, key).Some?
    requires k !in patch || k !in headers
    ensures var i := FindIndex(routes, key).value;
            Get(routes[i := Patched(routes[i], patch, headers)][i], k) == Get(routes[i], k)
  {
  }
}
