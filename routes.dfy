/**
 * A route record (one row of the routes sheet: a map from column name to cell
 * text) and the read-only operations of the route manager over the ordered
 * list of records: lookup by route number, substring search on the driver,
 * monitor and company columns, the listing reply, and the two key searches the
 * mutating operations start with.
 */
module Routes {
  import opened Wrappers
  import opened Text

  type Record = map<string, string>

  // Column names of the routes sheet.
  const RouteNumber := "N° ROTA"
  const NumberAlias := "NUMERO"
  const Bus := "ÔNIBUS"
  const RouteName := "ROTA"
  const Schools := "ESCOLAS ATENDIDAS"
  const Shift := "TURNO QUE O ÔNIBUS ATENDE"
  const Monitor := "MONITOR"
  const Driver := "MOTORISTAS / CONTATO"
  const Company := "EMPRESA"
  const Distance := "KM"
  const Plate := "PLACAS - ÔNIBUS"
  const StartDate := "DATA DE INÍCIO"

  /** `r[k] || ''`: an absent column reads as the empty string. */
  function Get(r: Record, k: string): string {
    if k in r then r[k] else ""
  }

  // ------------------------------------------------------ lookup by number

  /** The test of `buscarPorRota`: a non-empty route number, equal up to case. */
  predicate NumberMatches(r: Record, key: string) {
    Get(r, RouteNumber) != "" && Upper(Get(r, RouteNumber)) == Upper(key)
  }

  /** `buscarPorRota`: the first record whose route number matches the key. */
  function FindByNumber(routes: seq<Record>, key: string): (r: Option<Record>)
    ensures r.None? <==> forall i :: 0 <= i < |routes| ==> !NumberMatches(routes[i], key)
    ensures r.Some? ==> exists i :: 0 <= i < |routes| && routes[i] == r.value
                                 && NumberMatches(routes[i], key)
                                 && forall j :: 0 <= j < i ==> !NumberMatches(routes[j], key)
  {
    if routes == [] then None
    else if NumberMatches(routes[0], key) then Some(routes[0])
    else
      var r := FindByNumber(routes[1..], key);
      assert forall i :: 1 <= i < |routes| ==> routes[i] == routes[1..][i - 1];
      r
  }

  /** An empty key matches no route, since a matching route number must be non-empty. */
  lemma EmptyKeyFindsNothing(routes: seq<Record>)
    ensures FindByNumber(routes, "").None?
  {
    forall i | 0 <= i < |routes|
      ensures !NumberMatches(routes[i], "")
    {
      assert |Upper(Get(routes[i], RouteNumber))| == |Get(routes[i], RouteNumber)|;
    }
  }

  /**
   * A record appended to a list where no route number matches its own (up to
   * case) is what a lookup of its number then finds.
   */
  lemma {:induction false} FindAppended(routes: seq<Record>, x: Record)
    requires Get(x, RouteNumber) != ""
    requires forall i :: 0 <= i < |routes| ==> !NumberMatches(routes[i], Get(x, RouteNumber))
    ensures FindByNumber(routes + [x], Get(x, RouteNumber)) == Some(x)
  {
    var k := Get(x, RouteNumber);
    var all := routes + [x];
    assert NumberMatches(all[|routes|], k);
    var r := FindByNumber(all, k);
    var i :| 0 <= i < |all| && all[i] == r.value && NumberMatches(all[i], k)
             && forall j :: 0 <= j < i ==> !NumberMatches(all[j], k);
    assert i == |routes|;
  }

  /**
   * The duplicate check of `adicionarRota` compares route numbers exactly, the
   * lookup compares them up to case: after "a1" is added beside an existing
   * "A1", looking up "a1" finds the older record.
   */
  lemma CaseVariantShadowed()
    ensures var old1 := map[RouteNumber := "A1"];
            var new1 := map[RouteNumber := "a1"];
            !IsDuplicate([old1], new1)
            && FindByNumber([old1] + [new1], "a1") == Some(old1)
  {
    var old1 := map[RouteNumber := "A1"];
    assert Upper("A1") == "A1";
    assert Upper("a1") == "A1";
    assert NumberMatches(old1, "a1");
  }

  // ------------------------------------------------------- substring search

  /** The test of the `buscarPor*` filters on column `col`. */
  predicate FieldMatches(r: Record, col: string, query: string) {
    Get(r, col) != "" && Contains(Upper(Get(r, col)), Upper(query))
  }

  /** `a` is `b` with some elements left out, order kept. */
  predicate IsSubsequence<T(==)>(a: seq<T>, b: seq<T>)
    decreases |b|
  {
    a == [] || (b != [] && ((a[0] == b[0] && IsSubsequence(a[1..], b[1..])) || IsSubsequence(a, b[1..])))
  }

  /**
   * The records whose column `col` is non-empty and contains the query, up to
   * case: every such record, as often as it occurs, in registry order.
   */
  function FilterByField(routes: seq<Record>, col: string, query: string): (r: seq<Record>)
    ensures forall x :: multiset(r)[x] == if FieldMatches(x, col, query) then multiset(routes)[x] else 0
    ensures IsSubsequence(r, routes)
  {
    if routes == [] then []
    else
      var rest := FilterByField(routes[1..], col, query);
      assert routes == [routes[0]] + routes[1..];
      if FieldMatches(routes[0], col, query) then [routes[0]] + rest else rest
  }

  /** `buscarPorMotorista`. */
  function FindByDriver(routes: seq<Record>, name: string): (r: seq<Record>)
    ensures forall x :: x in r <==> x in routes && FieldMatches(x, Driver, name)
    ensures forall x :: multiset(r)[x] == if FieldMatches(x, Driver, name) then multiset(routes)[x] else 0
    ensures IsSubsequence(r, routes)
  {
    var r := FilterByField(routes, Driver, name);
    assert forall x :: x in r <==> multiset(r)[x] > 0;
    assert forall x :: x in routes <==> multiset(routes)[x] > 0;
    r
  }

  /** `buscarPorMonitor`. */
  function FindByMonitor(routes: seq<Record>, name: string): (r: seq<Record>)
    ensures forall x :: x in r <==> x in routes && FieldMatches(x, Monitor, name)
    ensures forall x :: multiset(r)[x] == if FieldMatches(x, Monitor, name) then multiset(routes)[x] else 0
    ensures IsSubsequence(r, routes)
  {
    var r := FilterByField(routes, Monitor, name);
    assert forall x :: x in r <==> multiset(r)[x] > 0;
    assert forall x :: x in routes <==> multiset(routes)[x] > 0;
    r
  }

  /** `buscarPorEmpresa`. */
  function FindByCompany(routes: seq<Record>, name: string): (r: seq<Record>)
    ensures forall x :: x in r <==> x in routes && FieldMatches(x, Company, name)
    ensures forall x :: multiset(r)[x] == if FieldMatches(x, Company, name) then multiset(routes)[x] else 0
    ensures IsSubsequence(r, routes)
  {
    var r := FilterByField(routes, Company, name);
    assert forall x :: x in r <==> multiset(r)[x] > 0;
    assert forall x :: x in routes <==> multiset(routes)[x] > 0;
    r
  }

  /** An empty query finds every record whose column is non-empty. */
  lemma EmptyQueryMatches(r: Record, col: string)
    ensures FieldMatches(r, col, "") <==> Get(r, col) != ""
  {
    ContainsEmpty(Upper(Get(r, col)));
  }

  // ---------------------------------------------------------------- listing

  const EmptyListReply := "Nenhuma rota encontrada ou a planilha ainda está sendo carregada. Tente novamente em alguns segundos."
  const ListTitle := "*Todas as Rotas:*\n\n"

  /** A column as a template literal shows it: an absent one prints "undefined". */
  function Show(r: Record, k: string): string {
    if k in r then r[k] else "undefined"
  }

  function ListLine(r: Record): string {
    "• " + Show(r, RouteNumber) + " - " + Show(r, RouteName) + "\n"
  }

  function ListLines(routes: seq<Record>): string {
    if routes == [] then "" else ListLines(routes[..|routes| - 1]) + ListLine(routes[|routes| - 1])
  }

  /** `listarTodasRotas`: the "not loaded" reply, or a title and one line per route. */
  function ListAll(routes: seq<Record>): string {
    if |routes| == 0 then EmptyListReply else ListTitle + ListLines(routes)
  }

  /** The listing of two lists one after the other is their two listings. */
  lemma {:induction false} ListLinesConcat(a: seq<Record>, b: seq<Record>)
    ensures ListLines(a + b) == ListLines(a) + ListLines(b)
    decreases |b|
  {
    if b != [] {
      var b', last := b[..|b| - 1], b[|b| - 1];
      ListLinesConcat(a, b');
      assert (a + b)[..|a + b| - 1] == a + b' && (a + b)[|a + b| - 1] == last;
      assert ListLines(a + b) == ListLines(a + b') + ListLine(last);
      assert ListLines(b) == ListLines(b') + ListLine(last);
    } else {
      assert a + b == a;
    }
  }

  /**
   * Appending a route to a non-empty registry appends exactly its line to the
   * listing; the listing of an empty registry is the "not loaded" reply.
   */
  lemma ListAllAppend(routes: seq<Record>, x: Record)
    ensures ListAll([]) == EmptyListReply
    ensures routes != [] ==> ListAll(routes + [x]) == ListAll(routes) + ListLine(x)
    ensures ListAll([x]) == ListTitle + ListLine(x)
  {
    ListLinesConcat(routes, [x]);
    assert ListLines([x]) == ListLines([]) + ListLine(x);
    if routes != [] {
      calc {
        ListAll(routes + [x]);
        ListTitle + ListLines(routes + [x]);
        ListTitle + (ListLines(routes) + ListLine(x));
        (ListTitle + ListLines(routes)) + ListLine(x);
      }
    }
  }

  // --------------------------------------------------------- key searches

  /** The duplicate test of `adicionarRota`: an exact, case-sensitive match. */
  predicate IsDuplicate(routes: seq<Record>, x: Record) {
    exists i :: 0 <= i < |routes| && Get(routes[i], RouteNumber) != ""
                && RouteNumber in x && Get(routes[i], RouteNumber) == x[RouteNumber]
  }

  /**
   * `novaRota['N° ROTA'].toString()` throws when the new record has no route
   * number, but only if the search reaches a record with a non-empty number.
   */
  predicate AddThrows(routes: seq<Record>, x: Record) {
    RouteNumber !in x && exists i :: 0 <= i < |routes| && Get(routes[i], RouteNumber) != ""
  }

  /** Adding the same record again is refused: its route number is now taken. */
  lemma InsertTwiceDuplicate(routes: seq<Record>, x: Record)
    requires RouteNumber in x && x[RouteNumber] != ""
    ensures IsDuplicate(routes + [x], x)
  {
    assert (routes + [x])[|routes|] == x;
  }

  /** The test of `atualizarRota`: a non-empty route number equal to the key. */
  predicate KeyMatches(r: Record, key: string) {
    Get(r, RouteNumber) != "" && Get(r, RouteNumber) == key
  }

  /** `findIndex` in `atualizarRota`: the first record whose number is the key. */
  function FindIndex(routes: seq<Record>, key: string): (r: Option<nat>)
    ensures r.Some? ==> r.value < |routes| && KeyMatches(routes[r.value], key)
                        && forall j :: 0 <= j < r.value ==> !KeyMatches(routes[j], key)
    ensures r.None? ==> forall j :: 0 <= j < |routes| ==> !KeyMatches(routes[j], key)
  {
    if routes == [] then None
    else if KeyMatches(routes[0], key) then Some(0)
    else
      match FindIndex(routes[1..], key)
      case None =>
        assert forall j :: 1 <= j < |routes| ==> routes[j] == routes[1..][j - 1];
        None
      case Some(i) =>
        assert forall j :: 1 <= j <= i ==> routes[j] == routes[1..][j - 1];
        Some(i + 1)
  }

  /**
   * The record after `atualizarRota`'s loop: every patch field that is one of
   * the headers is written, every other column is left as it was.
   */
  function Patched(r: Record, patch: map<string, string>, headers: seq<string>): (p: Record)
    ensures p.Keys == r.Keys + (set k | k in patch && k in headers)
    ensures forall k :: k in patch && k in headers ==> p[k] == patch[k]
    ensures forall k :: k in r && !(k in patch && k in headers) ==> p[k] == r[k]
  {
    r + map k | k in patch && k in headers :: patch[k]
  }
}
