# Ghost ASIN scraper: a verified model of search, matching and assembly

The scraper takes a merchant catalog: rows with a product name, a cost and a
UPC/EAN barcode. For every row it runs an Amazon catalog search by keyword and,
when the barcode is non-empty, a search by barcode. Each response that reports
results becomes a small table of at most three candidate listings. A language
model then names, for every search term, the candidate whose item name best
matches the term. Groups it cannot match are queued. The model cleans their
terms (removing sizes and temperatures), searches them again and matches them
again. The matched candidates of both rounds are concatenated and filtered to
the best matches, and one row per search term is kept.

This project models that core in Dafny:

- `Catalog` (catalog.dfy): the shape of a search response and of its listings,
  as they are read; the candidate row; the catalog row; and the unit
  conversion with rounding to two decimals.
- `Extraction` (extraction.dfy): `parse_output`. One response becomes the rows
  of its first three listings. Every strict lookup that can raise a
  `KeyError` or `IndexError` is an error value, and the first lookup to fail
  decides the error.
- `SearchFanOut` (search.dfy): `search_amazon`. The loop over catalog rows is
  a method proved equal to a specification function. There are lemmas about
  where the result rows come from, when the final `pd.concat` fails, and how
  many rows result.
- `Matching` (matching.dfy): `evaluate_match` and
  `match_products_with_search`. The prompt is built by a loop. The table is
  an array flagged in place by the two `.loc` assignments per group. The
  retry queue is a sequence. All of these are proved against specification
  functions, with lemmas about how many rows are flagged and which groups
  are queued.
- `Assembly` (assembly.dfy): the final concatenation, the `is_best_match`
  filter and `drop_duplicates(subset=['search_term'], keep='first')`.
- `Driver` (driver.dfy): the top-level run in main.py, including the loop
  that cleans up terms. It is proved equal to a specification function `Run`.
  Its result has distinct search terms, and every row carries the name,
  barcode and cost of a row of the uploaded catalog.

The keyword search, the barcode search and the language model are oracles,
i.e. total function parameters. The searches map a query to a response. The
language model maps (prompt, system message) to the final answer text.

Where the code and its documentation differ, the model follows the code:

- A group can hold several rows flagged as the best match. This happens when
  the group has duplicate item names and the answer is that name
  (`Matching.DuplicateNamesMarkedTwice`). At most one row is flagged when the
  names are distinct (`Matching.AtMostOneTrueWhenNamesDistinct`).
- A group is queued for a retry when the answer is non-empty and merely
  *contains* "No match". An answer that is neither one of the group's names
  nor contains "No match" flags every row of the group false. That group is
  not queued (`Matching.SilentlyDropped`), so its term is absent from the
  final table (`Driver.DroppedTermAbsent`).
- A response that reports results but lists no items still adds a (empty)
  table. `pd.concat` fails only when no search reports any result
  (`SearchFanOut.NoObjectsIffNoHits`). This holds in the retry round too,
  where such a failure aborts the whole run.
- When the first search succeeds with no rows, no group is visited and the
  `is_best_match` column is never created. The final filter then raises
  `KeyError` (`Driver.Reconcile`).

## Model

| member | source | states |
|---|---|---|
| Catalog.InchesToCm | main.py:67 | the result, in hundredths of a centimetre, lies within half a hundredth of inches x 2.54 |
| Catalog.PoundsToKg | main.py:79-80 | the result, in hundredths of a kilogram, lies within half a hundredth of pounds x 0.453592 |
| Catalog.FirstWith | match.py:24-25 | the row returned for a group (`iloc[0]`) carries the term, and no earlier row of the table carries it |
| Extraction.PackageQuantity | main.py:53-59 | the cell is 'N/A' exactly when the attribute is absent, empty, or its first entry has no `value`; otherwise it is that value |
| Extraction.ExtractRow | main.py:37-85 | a listing yields a row exactly when none of its strict lookups fails, and the errors are only KeyError and IndexError; the row has the caller's barcode, term and cost, the listing's ASIN and first summary name, and the pack quantity; without a package all four dimensions are 'N/A'; with one, each dimension is its own key's converted value or 'N/A' |
| Extraction.ExtractRowsShape | main.py:37-99 | a list of listings succeeds exactly when every listing is well formed, and then yields one row per listing in order; otherwise the error is that of the first listing that is not well formed |
| Extraction.ExtractRowsErrPrefix | main.py:37-85 | once a prefix of the listings raises, the whole list raises the same error |
| Extraction.ParseOutput | main.py:24-99 | the result is the extraction of the first three listings; it succeeds exactly when those three are well formed, and then has one row each, in order |
| Extraction.ExtractEach | main.py:37-85 | the loop over the listings, stopping at the first error, computes the specification's rows or error |
| Extraction.LaterItemsIgnored | main.py:36-37 | listings after the third never change the result |
| SearchFanOut.ResponseToTables | main.py:115-122 | one response adds no table when it reports zero results, and otherwise the table of its parsed listings or the parse error |
| SearchFanOut.SearchAmazon | main.py:102-147 | the loop over catalog rows (keyword search, then barcode search when the barcode is non-empty) returns exactly the concatenation the specification gives, the first listing error, or NoObjectsToConcatenate |
| SearchFanOut.TablesErrPrefix | main.py:108-141 | once the searches for a prefix of the catalog raise, the whole search raises the same error |
| SearchFanOut.SearchProvenance | main.py:108-138 | every result row carries the barcode and cost of some catalog row, and that row's return-column value as its search term |
| SearchFanOut.ResponseTablesEmpty | main.py:117-122 | a response adds no table exactly when it reports zero results, and never fails with NoObjectsToConcatenate |
| SearchFanOut.RowTablesEmptyIffNoHits | main.py:115-138 | a catalog row adds no table exactly when its keyword search, and its barcode search if any, report zero results |
| SearchFanOut.TablesEmptyIffNoHits | main.py:108-141 | the loop collects no table exactly when no search of any row reports results, and it never raises NoObjectsToConcatenate itself |
| SearchFanOut.NoObjectsIffNoHits | main.py:146 | the search fails with NoObjectsToConcatenate exactly when every search of every catalog row reports zero results |
| SearchFanOut.SearchRowCount | main.py:108-146 | a successful search yields exactly min(3, listings) rows per response that reports results, and none for the others |
| SearchFanOut.RowCountBound | main.py:108-146 | at most six rows per catalog row |
| Matching.NameListAt | match.py:45-46 | in the list of names, the k-th name followed by ", " starts at the summed lengths of the earlier names plus two each |
| Matching.EvaluateMatch | match.py:38-57 | the prompt built by the loop is the fixed head, the term, the fixed introduction, each name followed by ", ", and the fixed tail; the answer is the model's reply to that prompt under the matching system message |
| Matching.DistinctTerms | match.py:11 | the terms visit every group of the table exactly once |
| Matching.DistinctTermsInOrder | match.py:11 | the terms come in order of first appearance: a row carrying a later term comes after some row carrying each earlier term |
| Matching.LocAssign | match.py:29-33 | one `.loc` assignment sets the flag on exactly the rows of the group whose name equals (or differs from) the answer; every other row is unchanged |
| Matching.MarkGroup | match.py:27-33 | after both assignments every row of the group is flagged with whether its name equals the answer, and rows of other groups are unchanged |
| Matching.MatchGroup | match.py:13-33 | one group asks the model once with the group's names in row order, queues the group's first barcode and cost when the answer is non-empty and contains "No match", and flags the group's rows |
| Matching.MatchNext | match.py:11-33 | one more group joins the flagged groups and, when its answer says so, the queue; rows of every other group keep their flags |
| Matching.MatchProductsWithSearch | match.py:6-35 | for any order of visiting the groups, the table afterwards is the marked table: rows unchanged, each flagged with whether its name equals its group's answer; the queue holds the queued groups in visiting order |
| Matching.GroupNamesMembers | match.py:13 | a group's names are exactly the item names of the rows with its term |
| Matching.TrueRowsCount | match.py:29-33 | the number of rows of a group flagged true is the number of occurrences of the answer among the group's names |
| Matching.AtMostOneTrueWhenNamesDistinct | match.py:29-30 | with pairwise distinct names a group has at most one row flagged true |
| Matching.DuplicateNamesMarkedTwice | match.py:29-30 | two rows of one group with the same name are both flagged true when the answer is that name |
| Matching.QueueForOnlyQueued | match.py:23-25 | every queued row belongs to a visited group whose answer queues it, and is that group's term with its first row's barcode and cost |
| Matching.QueueForHas | match.py:23-25 | every visited group whose answer queues it is in the queue |
| Matching.UnmatchedOnlyQueued | match.py:23-25 | a group is queued only when the model's answer is non-empty and contains "No match" |
| Matching.UnmatchedAllQueued | match.py:23-25 | every group whose answer is non-empty and contains "No match" is queued |
| Matching.UnmatchedProvenance | match.py:24-25 | a queued row has no cleaned term yet and carries the term, barcode and cost of a row of the table |
| Matching.SilentlyDropped | match.py:23-33 | an answer that is none of the group's names and does not contain "No match" flags the whole group false and does not queue it |
| Assembly.BestRows | main.py:204-205 | the definition is the filter and column drop; it keeps at most as many rows as it is given, and `BestRowsMembers` and `BestRowsAppend` characterise it |
| Assembly.DedupBySearchTerm | main.py:208 | the definition is the first-row-per-term deduplication; it never adds rows, and `DedupDistinct`, `DedupKeepsFirst`, `DedupTerms`, `DedupSubset` and `DedupInOrder` characterise it |
| Assembly.FinalTable | main.py:200-208 | the definition is concatenation, filter and deduplication; it has at most as many rows as the two tables together, and `FinalTableRows`, `FinalTerms`, `PreRetryMatchWins` and `RetryMatchFillsGap` characterise it |
| Assembly.BestRowsAppend | main.py:200-205 | filtering the concatenation is concatenating the filtered tables |
| Assembly.BestRowsMembers | main.py:204-205 | the filter keeps exactly the rows flagged true (an unset flag is not true) |
| Assembly.DedupTerms | main.py:208 | deduplication keeps every search term |
| Assembly.DedupDistinct | main.py:208 | after deduplication no two rows share a search term |
| Assembly.DedupKeepsFirst | main.py:208 | each kept row is the first row of the table with its term |
| Assembly.DedupSubset | main.py:208 | deduplication only drops rows |
| Assembly.DedupInOrder | main.py:208 | the kept rows are the input rows at strictly increasing positions, so deduplication never reorders |
| Assembly.FinalTableRows | main.py:200-208 | the final table has distinct search terms, and each row comes from a row flagged true in the original or the retry table |
| Assembly.FinalTerms | main.py:200-208 | the final table covers exactly the terms with a true row in either table |
| Assembly.PreRetryMatchWins | main.py:200-208 | a term matched in the first round keeps its first-round row, whatever the retry found |
| Assembly.RetryMatchFillsGap | main.py:200-208 | a term matched only in the retry gets its first retry row |
| Assembly.FinalRowIsFirst | main.py:208 | for every term of a table, its first row survives deduplication |
| Driver.CleanSearchTerms | main.py:172-189 | every unmatched row gets the model's cleaned term for its product in place; product, barcode and cost are untouched |
| Driver.CleanRound | main.py:172-189 | the cleanup loop yields the unmatched rows with their cleaned terms |
| Driver.MatchRound | main.py:167 | one matching round on a searched table yields the marked table and the queue, groups visited in order of first appearance |
| Driver.CleanedFromCatalog | main.py:172-193 | cleaned rows all have the cleaned-term column the retry search reads, and keep the product, barcode and cost of a catalog row |
| Driver.MarkedFromCatalog | match.py:29-33 | flagging keeps the rows, so every flagged row still traces back to the catalog |
| Driver.UnmatchedFromCatalog | match.py:23-25 | every queued row names a catalog row's product with its barcode and cost |
| Driver.RetryProvenance | main.py:192-193 | rows found through cleaned terms are labelled with the original product name and carry a catalog row's barcode and cost |
| Driver.FinalFromCatalog | main.py:200-208 | every row of the final table traces back to the catalog |
| Driver.Retry | main.py:170-197 | the second round equals its specification (clean, search the cleaned terms labelled with the original terms, flag), and every flagged row traces back to the catalog |
| Driver.Run | main.py:155-208 | the definition is the whole run as a value; a failure of the first search is the run's failure, and a successful run had a successful first search; `Driver.Reconcile` is proved equal to it and carries its other properties |
| Driver.DroppedTermAbsent | main.py:167-208 | when the first search succeeds and a group's answer is none of its item names and does not contain "No match", a successful run has no row with that group's term |
| Driver.Reconcile | main.py:155-208 | the run equals its specification `Run`: the first search's error aborts it; an empty first table raises KeyError 'is_best_match'; without unmatched groups the result is the first round's true rows, deduplicated; every result has distinct search terms and rows that carry a catalog row's name, barcode and cost |

## Left out

- The Streamlit interface is not modelled: titles, status boxes, messages, the file uploader, the cached CSV download. The display-only branches at match.py:17-20 are left out with it.
- The pauses between searches (`time.sleep`) and the CSV reads and writes (main.py:158, 164) are I/O and are left out.
- The HTTP and token code in utils/amazon.py is not modelled. Each search is an oracle from query to parsed response. A response whose JSON lacks `numberOfResults` or `items` is not modelled.
- The OpenAI client in utils/llm.py is not modelled. The language model is an oracle from (prompt, system message) to the final answer, after the client strips whitespace and quotes (llm.py:21). The default system message (llm.py:6) is kept as `Driver.DefaultSystemMessage`.
- Catalog.InchesToCm: the measure is an exact real, and halves round up. Python multiplies binary floats and `round` ties to even, so results can differ in the last hundredth.
- Catalog.PoundsToKg: the same rounding difference as `Catalog.InchesToCm`.
- Like the source, the model ignores the measures' unit field.
- Matching.MatchProductsWithSearch: it accepts any order that visits every group once. pandas `groupby` visits the terms sorted, while `Driver.Reconcile` passes the order of first appearance. This changes the order of the retry queue, and hence of the retry rows. When several retry searches raise, it also decides which failure the run reports, since the retry search stops at the first row that raises. On a successful run it does not change which row each term keeps.
- Pandas details are not modelled: the index, `ignore_index`, the mixing of 'N/A' strings with numbers in a column, and NaN values. A missing barcode becomes the string "nan" in the source, and the model takes the barcode as the given string.
- The ten parallel lists of `parse_output` are modelled as one list of row records.
- The unmatched table declares an `ean` column but fills `UPC/EAN`. The model keeps one barcode field per catalog row, which is the one the retry search reads.
- Extraction.PackageQuantity: a pack quantity is taken to be an integer, whereas the JSON could hold any value.
