/** Search fan-out (`search_amazon`): for each catalog row, in order, a keyword
    search and, when the barcode is non-empty, a barcode search; every response
    with a non-zero result count adds the table of its listings. The two
    searches are oracles from query to response. */
module SearchFanOut {
  import opened Wrappers
  import opened Catalog
  import opened Extraction

  /** Every row has the column a search reads. */
  predicate HasColumn(rows: seq<CatalogRow>, c: Column)
  {
    forall k | 0 <= k < |rows| :: ColumnValue(rows[k], c).Some?
  }

  /** The tables one response adds: none when it reports zero results, else the
      rows of its first three listings labelled with `term`. */
  function ResponseTables(p: CatalogRow, term: string, response: SearchResponse): Result<seq<seq<Row>>, Failure>
  {
    if response.numberOfResults == 0 then Ok([])
    else
      var rows :- ExtractRows(p.ean, term, p.cost, response.items[..Min(MaxItems, |response.items|)]);
      Ok([rows])
  }

  /** The tables one catalog row adds: the keyword search's, then the barcode
      search's when the barcode is non-empty. The query comes from the search
      column, the term from the return column. */
  function RowTables(p: CatalogRow, searchColumn: Column, returnColumn: Column,
                     keyword: string -> SearchResponse, gtin: string -> SearchResponse): Result<seq<seq<Row>>, Failure>
    requires ColumnValue(p, searchColumn).Some? && ColumnValue(p, returnColumn).Some?
  {
    var term := ColumnValue(p, returnColumn).value;
    var byKeyword :- ResponseTables(p, term, keyword(ColumnValue(p, searchColumn).value));
    if p.ean == "" then Ok(byKeyword)
    else
      var byCode :- ResponseTables(p, term, gtin(p.ean));
      Ok(byKeyword + byCode)
  }

  /** The list of tables the loop builds over all catalog rows, in row order. */
  function Tables(rows: seq<CatalogRow>, searchColumn: Column, returnColumn: Column,
                  keyword: string -> SearchResponse, gtin: string -> SearchResponse): Result<seq<seq<Row>>, Failure>
    requires HasColumn(rows, searchColumn) && HasColumn(rows, returnColumn)
  {
    if rows == [] then Ok([])
    else
      var n := |rows| - 1;
      var front :- Tables(rows[..n], searchColumn, returnColumn, keyword, gtin);
      var last :- RowTables(rows[n], searchColumn, returnColumn, keyword, gtin);
      Ok(front + last)
  }

  /** The rows of a list of tables, one table after another (`pd.concat`). */
  function Flatten(tables: seq<seq<Row>>): seq<Row>
  {
    if tables == [] then [] else Flatten(tables[..|tables| - 1]) + tables[|tables| - 1]
  }

  /** The table `search_amazon` returns: the concatenation of all tables, or
      NoObjectsToConcatenate when there are none. */
  function SearchResults(rows: seq<CatalogRow>, searchColumn: Column, returnColumn: Column,
                         keyword: string -> SearchResponse, gtin: string -> SearchResponse): Result<seq<Row>, Failure>
    requires HasColumn(rows, searchColumn) && HasColumn(rows, returnColumn)
  {
    var tables :- Tables(rows, searchColumn, returnColumn, keyword, gtin);
    if tables == [] then Err(NoObjectsToConcatenate) else Ok(Flatten(tables))
  }

  /** A catalog row all of whose searches report zero results. */
  predicate NoHits(p: CatalogRow, searchColumn: Column, keyword: string -> SearchResponse, gtin: string -> SearchResponse)
    requires ColumnValue(p, searchColumn).Some?
  {
    && keyword(ColumnValue(p, searchColumn).value).numberOfResults == 0
    && (p.ean == "" || gtin(p.ean).numberOfResults == 0)
  }

  /** Once the tables of a prefix of the rows raise, the whole loop raises with
      the same error. */
  lemma {:induction false} TablesErrPrefix(rows: seq<CatalogRow>, searchColumn: Column, returnColumn: Column,
                                           keyword: string -> SearchResponse, gtin: string -> SearchResponse, i: nat)
    requires HasColumn(rows, searchColumn) && HasColumn(rows, returnColumn)
    requires i <= |rows|
    requires Tables(rows[..i], searchColumn, returnColumn, keyword, gtin).Err?
    ensures Tables(rows, searchColumn, returnColumn, keyword, gtin) == Tables(rows[..i], searchColumn, returnColumn, keyword, gtin)
    decreases |rows| - i
  {
    if i < |rows| {
      var next := rows[..i + 1];
      assert next[..i] == rows[..i];
      TablesErrLast(next, searchColumn, returnColumn, keyword, gtin);
      TablesErrPrefix(rows, searchColumn, returnColumn, keyword, gtin, i + 1);
    } else {
      assert rows[..i] == rows;
    }
  }

  /** A raise before the last row is the loop's result. */
  lemma TablesErrLast(rows: seq<CatalogRow>, searchColumn: Column, returnColumn: Column,
                      keyword: string -> SearchResponse, gtin: string -> SearchResponse)
    requires HasColumn(rows, searchColumn) && HasColumn(rows, returnColumn) && rows != []
    requires Tables(rows[..|rows| - 1], searchColumn, returnColumn, keyword, gtin).Err?
    ensures Tables(rows, searchColumn, returnColumn, keyword, gtin) == Tables(rows[..|rows| - 1], searchColumn, returnColumn, keyword, gtin)
  {
  }

  /** The tables one response adds, as the loop body computes them. */
  method ResponseToTables(p: CatalogRow, term: string, items: SearchResponse)
    returns (r: Result<seq<seq<Row>>, Failure>)
    ensures r == ResponseTables(p, term, items)
  {
    if items.numberOfResults == 0 {
      return Ok([]);
    }
    var df := ParseOutput(p.ean, term, p.cost, items.items);
    if df.Err? {
      return Err(df.error);
    }
    r := Ok([df.value]);
  }

  /** `search_amazon`: the tables are built catalog row by catalog row, in input
      order, and concatenated; a listing that raises aborts the search. */
  method SearchAmazon(rows: seq<CatalogRow>, searchColumn: Column, returnColumn: Column,
                      keyword: string -> SearchResponse, gtin: string -> SearchResponse)
    returns (r: Result<seq<Row>, Failure>)
    requires HasColumn(rows, searchColumn) && HasColumn(rows, returnColumn)
    ensures r == SearchResults(rows, searchColumn, returnColumn, keyword, gtin)
  {
    var dfs: seq<seq<Row>> := [];
    for i := 0 to |rows|
      invariant Tables(rows[..i], searchColumn, returnColumn, keyword, gtin) == Ok(dfs)
    {
      var p := rows[i];
      var term := ColumnValue(p, returnColumn).value;
      assert rows[..i + 1][..i] == rows[..i];
      var added := ResponseToTables(p, term, keyword(ColumnValue(p, searchColumn).value));
      if added.Ok? && p.ean != "" {
        var byCode := ResponseToTables(p, term, gtin(p.ean));
        added := if byCode.Ok? then Ok(added.value + byCode.value) else byCode;
      }
      assert added == RowTables(p, searchColumn, returnColumn, keyword, gtin);
      if added.Err? {
        TablesErrPrefix(rows, searchColumn, returnColumn, keyword, gtin, i + 1);
        return Err(added.error);
      }
      dfs := dfs + added.value;
    }
    assert rows[..|rows|] == rows;
    if dfs == [] {
      r := Err(NoObjectsToConcatenate);
    } else {
      r := Ok(Flatten(dfs));
    }
  }

  /* ---------------- Properties of the search results ---------------- */

  /** A result row carries the barcode and cost of catalog row `p` and the
      label read from `p`'s return column. */
  predicate FromCatalogRow(r: Row, p: CatalogRow, returnColumn: Column)
  {
    ColumnValue(p, returnColumn) == Some(r.searchTerm) && r.ean == p.ean && r.cost == p.cost
  }

  lemma {:induction false} FlattenAppend(a: seq<seq<Row>>, b: seq<seq<Row>>)
    ensures Flatten(a + b) == Flatten(a) + Flatten(b)
    decreases |b|
  {
    if b != [] {
      var n := |b| - 1;
      assert (a + b)[..|a + b| - 1] == a + b[..n];
      FlattenAppend(a, b[..n]);
    } else {
      assert a + b == a;
    }
  }

  /** Every row of a flattened list of tables is a row of one of the tables. */
  lemma {:induction false} FlattenMember(tables: seq<seq<Row>>, r: Row)
    requires r in Flatten(tables)
    ensures exists t | 0 <= t < |tables| :: r in tables[t]
  {
    var n := |tables| - 1;
    if r !in tables[n] {
      FlattenMember(tables[..n], r);
    }
  }

  lemma ResponseTablesProvenance(p: CatalogRow, term: string, returnColumn: Column, response: SearchResponse)
    requires ColumnValue(p, returnColumn) == Some(term)
    requires ResponseTables(p, term, response).Ok?
    ensures forall t, r | 0 <= t < |ResponseTables(p, term, response).value| && r in ResponseTables(p, term, response).value[t] ::
              FromCatalogRow(r, p, returnColumn)
  {
    if response.numberOfResults != 0 {
      ExtractRowsShape(p.ean, term, p.cost, response.items[..Min(MaxItems, |response.items|)]);
    }
  }

  lemma {:induction false} TablesProvenance(rows: seq<CatalogRow>, searchColumn: Column, returnColumn: Column,
                                            keyword: string -> SearchResponse, gtin: string -> SearchResponse)
    requires HasColumn(rows, searchColumn) && HasColumn(rows, returnColumn)
    requires Tables(rows, searchColumn, returnColumn, keyword, gtin).Ok?
    ensures var tables := Tables(rows, searchColumn, returnColumn, keyword, gtin).value;
            forall t, r | 0 <= t < |tables| && r in tables[t] ::
              exists k | 0 <= k < |rows| :: FromCatalogRow(r, rows[k], returnColumn)
  {
    if rows != [] {
      var n := |rows| - 1;
      var p := rows[n];
      assert HasColumn(rows[..n], searchColumn) && HasColumn(rows[..n], returnColumn);
      TablesProvenance(rows[..n], searchColumn, returnColumn, keyword, gtin);
      var term := ColumnValue(p, returnColumn).value;
      ResponseTablesProvenance(p, term, returnColumn, keyword(ColumnValue(p, searchColumn).value));
      if p.ean != "" {
        ResponseTablesProvenance(p, term, returnColumn, gtin(p.ean));
      }
      var front := Tables(rows[..n], searchColumn, returnColumn, keyword, gtin).value;
      var tables := Tables(rows, searchColumn, returnColumn, keyword, gtin).value;
      forall t, r | 0 <= t < |tables| && r in tables[t]
        ensures exists k | 0 <= k < |rows| :: FromCatalogRow(r, rows[k], returnColumn)
      {
        if t < |front| {
          var k :| 0 <= k < n && FromCatalogRow(r, rows[..n][k], returnColumn);
          assert rows[..n][k] == rows[k];
        } else {
          assert FromCatalogRow(r, rows[n], returnColumn);
        }
      }
    }
  }

  /** Every row `search_amazon` returns comes from one catalog row: it carries
      that row's barcode and cost and, as its search term, the value of that
      row's return column (never the query when the two columns differ). */
  lemma SearchProvenance(rows: seq<CatalogRow>, searchColumn: Column, returnColumn: Column,
                         keyword: string -> SearchResponse, gtin: string -> SearchResponse)
    requires HasColumn(rows, searchColumn) && HasColumn(rows, returnColumn)
    requires SearchResults(rows, searchColumn, returnColumn, keyword, gtin).Ok?
    ensures forall r | r in SearchResults(rows, searchColumn, returnColumn, keyword, gtin).value ::
              exists k | 0 <= k < |rows| :: FromCatalogRow(r, rows[k], returnColumn)
  {
    var tables := Tables(rows, searchColumn, returnColumn, keyword, gtin).value;
    TablesProvenance(rows, searchColumn, returnColumn, keyword, gtin);
    forall r | r in SearchResults(rows, searchColumn, returnColumn, keyword, gtin).value
      ensures exists k | 0 <= k < |rows| :: FromCatalogRow(r, rows[k], returnColumn)
    {
      FlattenMember(tables, r);
    }
  }

  /** A response adds no table exactly when it reports zero results, and it
      can only fail on a listing's missing key or empty list. */
  lemma ResponseTablesEmpty(p: CatalogRow, term: string, response: SearchResponse)
    ensures ResponseTables(p, term, response) == Ok([]) <==> response.numberOfResults == 0
    ensures ResponseTables(p, term, response).Err? ==> !ResponseTables(p, term, response).error.NoObjectsToConcatenate?
  {
    if response.numberOfResults != 0 {
      var r := ResponseTables(p, term, response);
      assert r.Ok? ==> |r.value| == 1;
      ExtractRowsShape(p.ean, term, p.cost, response.items[..Min(MaxItems, |response.items|)]);
    }
  }

  lemma RowTablesEmptyIffNoHits(p: CatalogRow, searchColumn: Column, returnColumn: Column,
                                keyword: string -> SearchResponse, gtin: string -> SearchResponse)
    requires ColumnValue(p, searchColumn).Some? && ColumnValue(p, returnColumn).Some?
    ensures RowTables(p, searchColumn, returnColumn, keyword, gtin) == Ok([]) <==> NoHits(p, searchColumn, keyword, gtin)
    ensures RowTables(p, searchColumn, returnColumn, keyword, gtin).Err? ==>
              !RowTables(p, searchColumn, returnColumn, keyword, gtin).error.NoObjectsToConcatenate?
  {
    var term := ColumnValue(p, returnColumn).value;
    var byKeyword := ResponseTables(p, term, keyword(ColumnValue(p, searchColumn).value));
    var byCode := ResponseTables(p, term, gtin(p.ean));
    ResponseTablesEmpty(p, term, keyword(ColumnValue(p, searchColumn).value));
    ResponseTablesEmpty(p, term, gtin(p.ean));
    if byKeyword.Ok? && p.ean != "" && byCode.Ok? {
      assert RowTables(p, searchColumn, returnColumn, keyword, gtin) == Ok(byKeyword.value + byCode.value);
      assert byKeyword.value + byCode.value == [] <==> byKeyword.value == [] && byCode.value == [];
    }
  }

  /** The search fails with NoObjectsToConcatenate exactly when every keyword
      and barcode search of every catalog row reports zero results. */
  lemma {:induction false} NoObjectsIffNoHits(rows: seq<CatalogRow>, searchColumn: Column, returnColumn: Column,
                                              keyword: string -> SearchResponse, gtin: string -> SearchResponse)
    requires HasColumn(rows, searchColumn) && HasColumn(rows, returnColumn)
    ensures SearchResults(rows, searchColumn, returnColumn, keyword, gtin) == Err(NoObjectsToConcatenate) <==>
              forall k | 0 <= k < |rows| :: NoHits(rows[k], searchColumn, keyword, gtin)
  {
    TablesEmptyIffNoHits(rows, searchColumn, returnColumn, keyword, gtin);
  }

  /** The loop collects no table exactly when no search reports results, and
      it never raises NoObjectsToConcatenate itself. */
  lemma {:induction false} TablesEmptyIffNoHits(rows: seq<CatalogRow>, searchColumn: Column, returnColumn: Column,
                                                keyword: string -> SearchResponse, gtin: string -> SearchResponse)
    requires HasColumn(rows, searchColumn) && HasColumn(rows, returnColumn)
    ensures Tables(rows, searchColumn, returnColumn, keyword, gtin) == Ok([]) <==>
              forall k | 0 <= k < |rows| :: NoHits(rows[k], searchColumn, keyword, gtin)
    ensures Tables(rows, searchColumn, returnColumn, keyword, gtin).Err? ==>
              !Tables(rows, searchColumn, returnColumn, keyword, gtin).error.NoObjectsToConcatenate?
  {
    if rows != [] {
      var n := |rows| - 1;
      assert HasColumn(rows[..n], searchColumn) && HasColumn(rows[..n], returnColumn);
      TablesEmptyIffNoHits(rows[..n], searchColumn, returnColumn, keyword, gtin);
      assert forall k | 0 <= k < n :: rows[..n][k] == rows[k];
      RowTablesEmptyIffNoHits(rows[n], searchColumn, returnColumn, keyword, gtin);
      var front := Tables(rows[..n], searchColumn, returnColumn, keyword, gtin);
      var last := RowTables(rows[n], searchColumn, returnColumn, keyword, gtin);
      if front.Ok? && last.Ok? {
        assert Tables(rows, searchColumn, returnColumn, keyword, gtin) == Ok(front.value + last.value);
        assert front.value + last.value == [] <==> front.value == [] && last.value == [];
      }
    }
  }

  /** How many rows the searches for one response yield when it parses. */
  function ResponseRowCount(response: SearchResponse): nat
  {
    if response.numberOfResults == 0 then 0 else Min(MaxItems, |response.items|)
  }

  /** How many rows the searches for a list of catalog rows yield. */
  function RowCount(rows: seq<CatalogRow>, searchColumn: Column,
                    keyword: string -> SearchResponse, gtin: string -> SearchResponse): nat
    requires HasColumn(rows, searchColumn)
  {
    if rows == [] then 0
    else
      var p := rows[|rows| - 1];
      RowCount(rows[..|rows| - 1], searchColumn, keyword, gtin)
        + ResponseRowCount(keyword(ColumnValue(p, searchColumn).value))
        + (if p.ean == "" then 0 else ResponseRowCount(gtin(p.ean)))
  }

  lemma {:induction false} FlattenLength(a: seq<seq<Row>>, b: seq<seq<Row>>)
    ensures |Flatten(a + b)| == |Flatten(a)| + |Flatten(b)|
  {
    FlattenAppend(a, b);
  }

  lemma ResponseTablesCount(p: CatalogRow, term: string, response: SearchResponse)
    requires ResponseTables(p, term, response).Ok?
    ensures |Flatten(ResponseTables(p, term, response).value)| == ResponseRowCount(response)
  {
    if response.numberOfResults != 0 {
      var tables := ResponseTables(p, term, response).value;
      ExtractRowsShape(p.ean, term, p.cost, response.items[..Min(MaxItems, |response.items|)]);
      assert Flatten(tables) == Flatten([]) + tables[0];
    }
  }

  /** The rows one catalog row adds. */
  lemma RowTablesCount(p: CatalogRow, searchColumn: Column, returnColumn: Column,
                       keyword: string -> SearchResponse, gtin: string -> SearchResponse)
    requires ColumnValue(p, searchColumn).Some? && ColumnValue(p, returnColumn).Some?
    requires RowTables(p, searchColumn, returnColumn, keyword, gtin).Ok?
    ensures |Flatten(RowTables(p, searchColumn, returnColumn, keyword, gtin).value)|
            == ResponseRowCount(keyword(ColumnValue(p, searchColumn).value))
               + (if p.ean == "" then 0 else ResponseRowCount(gtin(p.ean)))
  {
    var term := ColumnValue(p, returnColumn).value;
    var kw := keyword(ColumnValue(p, searchColumn).value);
    ResponseTablesCount(p, term, kw);
    if p.ean != "" {
      ResponseTablesCount(p, term, gtin(p.ean));
      FlattenLength(ResponseTables(p, term, kw).value, ResponseTables(p, term, gtin(p.ean)).value);
    }
  }

  /** A successful search yields exactly min(3, listings) rows for every
      keyword and barcode response that reports results, and none for the
      others. */
  lemma {:induction false} SearchRowCount(rows: seq<CatalogRow>, searchColumn: Column, returnColumn: Column,
                                          keyword: string -> SearchResponse, gtin: string -> SearchResponse)
    requires HasColumn(rows, searchColumn) && HasColumn(rows, returnColumn)
    requires Tables(rows, searchColumn, returnColumn, keyword, gtin).Ok?
    ensures |Flatten(Tables(rows, searchColumn, returnColumn, keyword, gtin).value)| == RowCount(rows, searchColumn, keyword, gtin)
  {
    if rows != [] {
      var n := |rows| - 1;
      assert HasColumn(rows[..n], searchColumn) && HasColumn(rows[..n], returnColumn);
      var front := Tables(rows[..n], searchColumn, returnColumn, keyword, gtin);
      var last := RowTables(rows[n], searchColumn, returnColumn, keyword, gtin);
      assert front.Ok? && last.Ok?;
      assert Tables(rows, searchColumn, returnColumn, keyword, gtin).value == front.value + last.value;
      SearchRowCount(rows[..n], searchColumn, returnColumn, keyword, gtin);
      RowTablesCount(rows[n], searchColumn, returnColumn, keyword, gtin);
      FlattenLength(front.value, last.value);
    }
  }

  /** At most three rows per response, so at most six per catalog row. */
  lemma {:induction false} RowCountBound(rows: seq<CatalogRow>, searchColumn: Column,
                                         keyword: string -> SearchResponse, gtin: string -> SearchResponse)
    requires HasColumn(rows, searchColumn)
    ensures RowCount(rows, searchColumn, keyword, gtin) <= 2 * MaxItems * |rows|
  {
    if rows != [] {
      var n := |rows| - 1;
      assert HasColumn(rows[..n], searchColumn);
      RowCountBound(rows[..n], searchColumn, keyword, gtin);
    }
  }
}
