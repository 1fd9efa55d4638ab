/** The top-level run: search the uploaded catalog, match, clean up the terms
    of unmatched groups with the language model, search and match those again
    (labelled with their original terms), merge, filter and deduplicate. */
module Driver {
  import opened Wrappers
  import opened Catalog
  import opened SearchFanOut
  import opened Matching
  import opened Assembly

  /** The language model's default system message (spelled as the program spells it). */
  const DefaultSystemMessage: string := "You are a world class AI assitant."

  /** The text around the term in the cleanup prompt. */
  const CleanupHead: string := "\"\n                The search term is: "
  const CleanupTail: string := "\n                \n                Remove any references to sizing in ml / oz.\n"
    + "                Remove any reference to degrees °.\n"
    + "                Respond with the cleaned search term and nothing else.\n                "

  /** The prompt asking the model to strip sizes and temperatures from a term. */
  function CleanupPrompt(term: string): string
  {
    CleanupHead + term + CleanupTail
  }

  /** An unmatched row with the model's cleaned term in its `cleaned_product` column. */
  function Cleaned(p: CatalogRow, llm: (string, string) -> string): CatalogRow
  {
    p.(cleanedProduct := Some(llm(CleanupPrompt(p.product), DefaultSystemMessage)))
  }

  /** The cleanup loop: every unmatched row gets its cleaned term in place;
      its product, barcode and cost are untouched. */
  method CleanSearchTerms(notMatched: array<CatalogRow>, llm: (string, string) -> string)
    modifies notMatched
    ensures forall k | 0 <= k < notMatched.Length :: notMatched[k] == Cleaned(old(notMatched[k]), llm)
  {
    for k := 0 to notMatched.Length
      invariant forall j | 0 <= j < k :: notMatched[j] == Cleaned(old(notMatched[j]), llm)
      invariant forall j | k <= j < notMatched.Length :: notMatched[j] == old(notMatched[j])
    {
      var cleanProduct := llm(CleanupPrompt(notMatched[k].product), DefaultSystemMessage);
      notMatched[k] := notMatched[k].(cleanedProduct := Some(cleanProduct));
    }
  }

  /** A result row carrying the product name, barcode and cost of some row of the uploaded catalog. */
  predicate FromCatalog(r: Row, products: seq<CatalogRow>)
  {
    exists k | 0 <= k < |products| :: FromCatalogRow(r, products[k], ProductColumn)
  }

  /** An unmatched row carrying the product name, barcode and cost of some row of the uploaded catalog. */
  predicate QueuedFromCatalog(q: CatalogRow, products: seq<CatalogRow>)
  {
    exists k | 0 <= k < |products| ::
      products[k].product == q.product && products[k].ean == q.ean && products[k].cost == q.cost
  }

  /** A fresh matched table whose flags are all unset. */
  method NewTable(rows: seq<Row>) returns (table: array<Candidate>)
    ensures fresh(table) && Rows(table[..]) == rows
    ensures forall i | 0 <= i < table.Length :: table[i].isBestMatch == None
  {
    table := new Candidate[|rows|](i requires 0 <= i < |rows| => Candidate(rows[i], None));
  }

  /** One matching round on freshly searched rows, groups taken in order of
      first appearance. */
  method MatchRound(rows: seq<Row>, llm: (string, string) -> string)
    returns (marked: seq<Candidate>, notMatched: seq<CatalogRow>)
    ensures marked == MarkedTable(rows, llm)
    ensures notMatched == Unmatched(rows, DistinctTerms(rows), llm)
  {
    var table := NewTable(rows);
    notMatched := MatchProductsWithSearch(table, DistinctTerms(rows), llm);
    marked := table[..];
  }

  /** The unmatched rows with their cleaned terms. */
  function CleanedQueue(notMatched: seq<CatalogRow>, llm: (string, string) -> string): (queue: seq<CatalogRow>)
    ensures |queue| == |notMatched|
    ensures forall k | 0 <= k < |queue| :: queue[k] == Cleaned(notMatched[k], llm)
  {
    seq(|notMatched|, k requires 0 <= k < |notMatched| => Cleaned(notMatched[k], llm))
  }

  /** The cleanup loop run on a copy of the unmatched rows. */
  method CleanRound(notMatched: seq<CatalogRow>, llm: (string, string) -> string)
    returns (queue: seq<CatalogRow>)
    ensures queue == CleanedQueue(notMatched, llm)
  {
    var a := new CatalogRow[|notMatched|](i requires 0 <= i < |notMatched| => notMatched[i]);
    CleanSearchTerms(a, llm);
    queue := a[..];
  }

  /** The second round as a value: search the cleaned terms, labelled with the
      original terms, and flag the rows found. */
  function RetryResult(notMatched: seq<CatalogRow>, keyword: string -> SearchResponse,
                       gtin: string -> SearchResponse, llm: (string, string) -> string): Result<seq<Candidate>, Failure>
  {
    var queue := CleanedQueue(notMatched, llm);
    assert HasColumn(queue, CleanedProductColumn);
    var retry :- SearchResults(queue, CleanedProductColumn, ProductColumn, keyword, gtin);
    Ok(MarkedTable(retry, llm))
  }

  /** The run as a value: search, match, retry the unmatched groups when there
      are any, merge, filter and deduplicate. */
  function Run(products: seq<CatalogRow>, keyword: string -> SearchResponse,
               gtin: string -> SearchResponse, llm: (string, string) -> string): (r: Result<seq<Row>, Failure>)
    ensures var first := SearchResults(products, ProductColumn, ProductColumn, keyword, gtin);
            first.Err? ==> r == Err(first.error)
    ensures r.Ok? ==> SearchResults(products, ProductColumn, ProductColumn, keyword, gtin).Ok?
  {
    var searched :- SearchResults(products, ProductColumn, ProductColumn, keyword, gtin);
    if searched == [] then Err(KeyError(BestMatchColumn))
    else
      var notMatched := Unmatched(searched, DistinctTerms(searched), llm);
      var retried :- if notMatched == [] then Ok([]) else RetryResult(notMatched, keyword, gtin, llm);
      Ok(FinalTable(MarkedTable(searched, llm), retried))
  }

  /** The name of the flag column the final filter reads. */
  const BestMatchColumn: string := "is_best_match"

  /** The run as a whole. A failure of the first search or of the retry search
      aborts it, and so does a first search that finds listings reported but
      none returned: the flag column the final filter reads then does not exist. Otherwise the result has one row per search term, and every
      row carries the name, barcode and cost of a row of the uploaded catalog:
      a row found through a cleaned term is still labelled with the original
      term. Without unmatched groups the result is the first matching's
      flagged rows, deduplicated. */
  method Reconcile(products: seq<CatalogRow>, keyword: string -> SearchResponse,
                   gtin: string -> SearchResponse, llm: (string, string) -> string)
    returns (result: Result<seq<Row>, Failure>)
    ensures result == Run(products, keyword, gtin, llm)
    ensures var first := SearchResults(products, ProductColumn, ProductColumn, keyword, gtin);
            first.Err? ==> result == Err(first.error)
    ensures var first := SearchResults(products, ProductColumn, ProductColumn, keyword, gtin);
            first == Ok([]) ==> result == Err(KeyError(BestMatchColumn))
    ensures var first := SearchResults(products, ProductColumn, ProductColumn, keyword, gtin);
            first.Ok? && first.value != [] && Unmatched(first.value, DistinctTerms(first.value), llm) == [] ==>
              result == Ok(FinalTable(MarkedTable(first.value, llm), []))
    ensures result.Ok? ==> forall i, j | 0 <= i < j < |result.value| :: result.value[i].searchTerm != result.value[j].searchTerm
    ensures result.Ok? ==> forall r | r in result.value :: FromCatalog(r, products)
  {
    var searched :- SearchAmazon(products, ProductColumn, ProductColumn, keyword, gtin);
    if searched == [] {
      // No group was visited, so the flag column was never created.
      return Err(KeyError(BestMatchColumn));
    }
    SearchProvenance(products, ProductColumn, ProductColumn, keyword, gtin);
    var merged, notMatched := MatchRound(searched, llm);
    MarkedFromCatalog(products, searched, llm);
    var retried: seq<Candidate> := [];
    if |notMatched| > 0 {
      UnmatchedFromCatalog(products, searched, llm);
      retried :- Retry(products, notMatched, keyword, gtin, llm);
    }
    FinalFromCatalog(products, merged, retried);
    FinalTableRows(merged, retried);
    result := Ok(FinalTable(merged, retried));
  }

  /** The second round: clean the unmatched terms, search the cleaned terms
      (labelling the rows with the original terms) and match again. A failure
      of the search aborts it; otherwise every matched row traces back to the
      uploaded catalog. */
  method Retry(products: seq<CatalogRow>, notMatched: seq<CatalogRow>, keyword: string -> SearchResponse,
               gtin: string -> SearchResponse, llm: (string, string) -> string)
    returns (result: Result<seq<Candidate>, Failure>)
    requires forall u | u in notMatched :: QueuedFromCatalog(u, products)
    ensures result == RetryResult(notMatched, keyword, gtin, llm)
    ensures result.Ok? ==> forall c | c in result.value :: FromCatalog(c.row, products)
  {
    var queue := CleanRound(notMatched, llm);
    CleanedFromCatalog(products, notMatched, queue, llm);
    var retrySearched :- SearchAmazon(queue, CleanedProductColumn, ProductColumn, keyword, gtin);
    RetryProvenance(products, queue, retrySearched, keyword, gtin);
    var retried, stillUnmatched := MatchRound(retrySearched, llm);
    MarkedFromCatalog(products, retrySearched, llm);
    result := Ok(retried);
  }

  /** Cleaning fills the `cleaned_product` column and keeps each row's
      product, barcode and cost. */
  lemma CleanedFromCatalog(products: seq<CatalogRow>, notMatched: seq<CatalogRow>, queue: seq<CatalogRow>,
                           llm: (string, string) -> string)
    requires forall u | u in notMatched :: QueuedFromCatalog(u, products)
    requires |queue| == |notMatched|
    requires forall k | 0 <= k < |queue| :: queue[k] == Cleaned(notMatched[k], llm)
    ensures HasColumn(queue, CleanedProductColumn)
    ensures forall k | 0 <= k < |queue| :: QueuedFromCatalog(queue[k], products)
  {
    forall k | 0 <= k < |queue|
      ensures QueuedFromCatalog(queue[k], products)
    {
      assert notMatched[k] in notMatched;
      var j :| 0 <= j < |products| && products[j].product == notMatched[k].product
               && products[j].ean == notMatched[k].ean && products[j].cost == notMatched[k].cost;
      assert queue[k].product == notMatched[k].product && queue[k].ean == notMatched[k].ean
             && queue[k].cost == notMatched[k].cost;
    }
  }

  /** Flagging keeps the rows, so provenance carries over to the matched table. */
  lemma MarkedFromCatalog(products: seq<CatalogRow>, rows: seq<Row>, llm: (string, string) -> string)
    requires forall r | r in rows :: FromCatalog(r, products)
    ensures forall c | c in MarkedTable(rows, llm) :: FromCatalog(c.row, products)
  {
    forall c | c in MarkedTable(rows, llm)
      ensures FromCatalog(c.row, products)
    {
      var i :| 0 <= i < |rows| && MarkedTable(rows, llm)[i] == c;
      assert rows[i] in rows;
    }
  }

  /** The final table keeps only rows of the matched tables, so provenance carries over. */
  lemma FinalFromCatalog(products: seq<CatalogRow>, merged: seq<Candidate>, retried: seq<Candidate>)
    requires forall c | c in merged + retried :: FromCatalog(c.row, products)
    ensures forall r | r in FinalTable(merged, retried) :: FromCatalog(r, products)
  {
    FinalTableRows(merged, retried);
    forall r | r in FinalTable(merged, retried)
      ensures FromCatalog(r, products)
    {
      var i :| 0 <= i < |merged + retried| && (merged + retried)[i] == Candidate(r, Some(true));
      assert (merged + retried)[i] in merged + retried;
    }
  }

  /** The groups queued after the first matching name terms of the uploaded
      catalog, with that catalog row's barcode and cost. */
  lemma UnmatchedFromCatalog(products: seq<CatalogRow>, searched: seq<Row>, llm: (string, string) -> string)
    requires forall r | r in searched :: FromCatalog(r, products)
    ensures forall u | u in Unmatched(searched, DistinctTerms(searched), llm) :: QueuedFromCatalog(u, products)
  {
    UnmatchedProvenance(searched, DistinctTerms(searched), llm);
    forall u | u in Unmatched(searched, DistinctTerms(searched), llm)
      ensures QueuedFromCatalog(u, products)
    {
      var i :| 0 <= i < |searched| && searched[i].searchTerm == u.product
               && searched[i].ean == u.ean && searched[i].cost == u.cost;
      assert searched[i] in searched;
    }
  }

  /** The rows found through cleaned terms are labelled with the original
      term, so they too trace back to the uploaded catalog. */
  lemma RetryProvenance(products: seq<CatalogRow>, queue: seq<CatalogRow>, retrySearched: seq<Row>,
                        keyword: string -> SearchResponse, gtin: string -> SearchResponse)
    requires forall k | 0 <= k < |queue| :: QueuedFromCatalog(queue[k], products)
    requires HasColumn(queue, CleanedProductColumn)
    requires SearchResults(queue, CleanedProductColumn, ProductColumn, keyword, gtin) == Ok(retrySearched)
    ensures forall r | r in retrySearched :: FromCatalog(r, products)
  {
    SearchProvenance(queue, CleanedProductColumn, ProductColumn, keyword, gtin);
    forall r | r in retrySearched
      ensures FromCatalog(r, products)
    {
      var k :| 0 <= k < |queue| && FromCatalogRow(r, queue[k], ProductColumn);
      var j :| 0 <= j < |products| && products[j].product == queue[k].product
               && products[j].ean == queue[k].ean && products[j].cost == queue[k].cost;
      assert FromCatalogRow(r, products[j], ProductColumn);
    }
  }

  /** A group whose answer is none of its item names and does not contain
      "No match" is flagged false and never retried, so its search term is
      absent from the final table. */
  lemma DroppedTermAbsent(products: seq<CatalogRow>, keyword: string -> SearchResponse,
                          gtin: string -> SearchResponse, llm: (string, string) -> string, term: string)
    requires SearchResults(products, ProductColumn, ProductColumn, keyword, gtin).Ok?
    requires var searched := SearchResults(products, ProductColumn, ProductColumn, keyword, gtin).value;
             && Response(searched, term, llm) !in GroupNames(searched, term)
             && !Contains(Response(searched, term, llm), NoMatch)
    requires Run(products, keyword, gtin, llm).Ok?
    ensures forall r | r in Run(products, keyword, gtin, llm).value :: r.searchTerm != term
  {
    var searched := SearchResults(products, ProductColumn, ProductColumn, keyword, gtin).value;
    var notMatched := Unmatched(searched, DistinctTerms(searched), llm);
    FirstRoundAvoidsTerm(searched, term, llm);
    var retried: seq<Candidate> := if notMatched == [] then [] else RetryResult(notMatched, keyword, gtin, llm).value;
    if notMatched != [] {
      RetryAvoidsTerm(notMatched, keyword, gtin, llm, term);
    }
    FinalAvoidsTerm(MarkedTable(searched, llm), retried, term);
  }

  /** After the first matching a silently dropped group has no true row and is
      not queued. */
  lemma FirstRoundAvoidsTerm(searched: seq<Row>, term: string, llm: (string, string) -> string)
    requires Response(searched, term, llm) !in GroupNames(searched, term)
    requires !Contains(Response(searched, term, llm), NoMatch)
    ensures forall c | c in MarkedTable(searched, llm) && c.isBestMatch == Some(true) :: c.row.searchTerm != term
    ensures forall u | u in Unmatched(searched, DistinctTerms(searched), llm) :: u.product != term
  {
    SilentlyDropped(searched, DistinctTerms(searched), term, llm);
    forall c | c in MarkedTable(searched, llm) && c.isBestMatch == Some(true)
      ensures c.row.searchTerm != term
    {
      var i :| 0 <= i < |searched| && MarkedTable(searched, llm)[i] == c;
    }
  }

  /** A term without a true row in either table is absent from the final table. */
  lemma FinalAvoidsTerm(marked: seq<Candidate>, retried: seq<Candidate>, term: string)
    requires forall c | c in marked + retried && c.isBestMatch == Some(true) :: c.row.searchTerm != term
    ensures forall r | r in FinalTable(marked, retried) :: r.searchTerm != term
  {
    FinalTableRows(marked, retried);
    forall r | r in FinalTable(marked, retried)
      ensures r.searchTerm != term
    {
      var i :| 0 <= i < |marked + retried| && (marked + retried)[i] == Candidate(r, Some(true));
      assert (marked + retried)[i] in marked + retried;
    }
  }

  /** The retry only finds rows labelled with the terms it was given. */
  lemma RetryAvoidsTerm(notMatched: seq<CatalogRow>, keyword: string -> SearchResponse,
                        gtin: string -> SearchResponse, llm: (string, string) -> string, term: string)
    requires forall u | u in notMatched :: u.product != term
    requires RetryResult(notMatched, keyword, gtin, llm).Ok?
    ensures forall c | c in RetryResult(notMatched, keyword, gtin, llm).value :: c.row.searchTerm != term
  {
    var queue := CleanedQueue(notMatched, llm);
    assert HasColumn(queue, CleanedProductColumn);
    var retry := SearchResults(queue, CleanedProductColumn, ProductColumn, keyword, gtin).value;
    assert RetryResult(notMatched, keyword, gtin, llm).value == MarkedTable(retry, llm);
    SearchProvenance(queue, CleanedProductColumn, ProductColumn, keyword, gtin);
    forall c | c in MarkedTable(retry, llm)
      ensures c.row.searchTerm != term
    {
      var j :| 0 <= j < |retry| && MarkedTable(retry, llm)[j] == c;
      assert retry[j] in retry;
      var k :| 0 <= k < |queue| && FromCatalogRow(retry[j], queue[k], ProductColumn);
      assert notMatched[k] in notMatched;
    }
  }
}
