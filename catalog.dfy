/** Value types shared by the pipeline: the JSON body of a catalog-search call,
    the candidate row extracted from it, a row of the merchant's catalog, and
    the failures a run can raise. */
module Catalog {
  import opened Wrappers

  /* ---------------- Catalog-search response ---------------- */

  /** One entry of the `item_package_quantity` attribute; its `value` key may be absent. */
  datatype QuantityEntry = QuantityEntry(value: Option<int>)

  /** The `attributes` object of a listing. Only `item_package_quantity` is read;
      None stands for an absent key, and the list it holds may be empty. */
  datatype Attributes = Attributes(itemPackageQuantity: Option<seq<QuantityEntry>>)

  /** One entry of the `summaries` list. */
  datatype Summary = Summary(itemName: Option<string>)

  /** A `{"value": …}` measure, in inches (lengths) or pounds (weight). */
  datatype Measure = Measure(value: Option<real>)

  /** The `package` object of a dimensions entry; None is an absent key. */
  datatype Package = Package(height: Option<Measure>, length: Option<Measure>,
                             width: Option<Measure>, weight: Option<Measure>)

  /** An entry of the `dimensions` list. A None entry of that list stands for a
      falsy entry (null or an empty object); `package` None stands for an
      absent or empty `package` object. */
  datatype DimensionEntry = DimensionEntry(package: Option<Package>)

  /** One listing of the `items` list. None is an absent key. */
  datatype Item = Item(asin: Option<string>, summaries: Option<seq<Summary>>,
                       attributes: Option<Attributes>,
                       dimensions: Option<seq<Option<DimensionEntry>>>)

  /** The JSON body of one keyword or barcode search. */
  datatype SearchResponse = SearchResponse(numberOfResults: int, items: seq<Item>)

  /* ---------------- Extracted candidate rows ---------------- */

  /** A table cell that is either the string 'N/A' or a value. */
  datatype Cell<+T> = NA | Val(v: T)

  /** One candidate row: the listing's ASIN and name, the caller's barcode,
      search label and cost, the pack quantity, and the package dimensions in
      hundredths of a centimetre and the weight in hundredths of a kilogram. */
  datatype Row = Row(asin: string, ean: string, searchTerm: string, itemName: string,
                     cost: real, packageQuantity: Cell<int>,
                     height: Cell<int>, length: Cell<int>, width: Cell<int>, weight: Cell<int>)

  /** What a run can raise: a missing JSON key, an index into an empty JSON
      list, or concatenating an empty list of tables. */
  datatype Failure = KeyError(key: string) | IndexError(list: string) | NoObjectsToConcatenate

  /* ---------------- Merchant catalog rows ---------------- */

  /** A row of the uploaded catalog, or of the table of unmatched terms, which
      gains a `cleaned_product` column before it is searched again. */
  datatype CatalogRow = CatalogRow(product: string, cost: real, ean: string,
                                   cleanedProduct: Option<string>)

  /** The two columns a search can read its query or its label from. */
  datatype Column = ProductColumn | CleanedProductColumn

  function ColumnValue(p: CatalogRow, c: Column): Option<string>
  {
    match c
    case ProductColumn => Some(p.product)
    case CleanedProductColumn => p.cleanedProduct
  }

  /* ---------------- Unit conversion ---------------- */

  /** Inches to centimetres (x 2.54), rounded to two decimals: the result is the
      nearest number of hundredths of a centimetre, halves rounded up. */
  function InchesToCm(inches: real): (centi: int)
    ensures centi as real - 0.5 <= inches * 254.0 < centi as real + 0.5
  {
    (inches * 254.0 + 0.5).Floor
  }

  /** Pounds to kilograms (x 0.453592), rounded to two decimals: the result is
      the nearest number of hundredths of a kilogram, halves rounded up. */
  function PoundsToKg(pounds: real): (centi: int)
    ensures centi as real - 0.5 <= pounds * 45.3592 < centi as real + 0.5
  {
    (pounds * 45.3592 + 0.5).Floor
  }

  /** 10 inches is 25.40 cm and 1 pound is 0.45 kg. */
  lemma ConversionExamples()
    ensures InchesToCm(10.0) == 2540
    ensures PoundsToKg(1.0) == 45
  {
  }

  /* ---------------- Search-term helpers ---------------- */

  /** The set of search terms of a table. */
  function Terms(rows: seq<Row>): (ts: set<string>)
    ensures forall i | 0 <= i < |rows| :: rows[i].searchTerm in ts
    ensures forall t | t in ts :: exists i | 0 <= i < |rows| :: rows[i].searchTerm == t
  {
    set i | 0 <= i < |rows| :: rows[i].searchTerm
  }

  /** The first row of a table carrying a search term (`group.iloc[0]`). */
  function FirstWith(rows: seq<Row>, term: string): (r: Row)
    requires term in Terms(rows)
    ensures r.searchTerm == term
    ensures exists i | 0 <= i < |rows| :: rows[i] == r && forall j | 0 <= j < i :: rows[j].searchTerm != term
  {
    if rows[0].searchTerm == term then rows[0]
    else
      assert term in Terms(rows[1..]) by {
        var i :| 0 <= i < |rows| && rows[i].searchTerm == term;
        assert rows[1..][i - 1] == rows[i];
      }
      var r := FirstWith(rows[1..], term);
      ghost var i :| 0 <= i < |rows[1..]| && rows[1..][i] == r && forall j | 0 <= j < i :: rows[1..][j].searchTerm != term;
      assert rows[i + 1] == r;
      r
  }
}
