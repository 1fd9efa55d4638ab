/** Result extraction: one search response becomes at most three candidate
    rows (`parse_output`). */
module Extraction {
  import opened Wrappers
  import opened Catalog

  /** Only the first three listings of a response are used. */
  const MaxItems: nat := 3

  function Min(a: int, b: int): int
  {
    if a <= b then a else b
  }

  /** A strict `dict[key]` lookup: an absent key raises KeyError. */
  function Lookup<T>(o: Option<T>, key: string): (r: Result<T, Failure>)
  {
    match o
    case Some(v) => Ok(v)
    case None => Err(KeyError(key))
  }

  /** `item['summaries'][0]['itemName']`. */
  function ItemName(item: Item): Result<string, Failure>
  {
    var summaries :- Lookup(item.summaries, "summaries");
    if summaries == [] then Err(IndexError("summaries"))
    else Lookup(summaries[0].itemName, "itemName")
  }

  /** The pack quantity: the `value` of the first `item_package_quantity`
      entry, 'N/A' when the attribute is absent or empty or that entry has no
      `value`. */
  function PackageQuantity(attributes: Attributes): (q: Cell<int>)
    ensures q.NA? <==> (|| attributes.itemPackageQuantity.None?
                        || attributes.itemPackageQuantity.value == []
                        || attributes.itemPackageQuantity.value[0].value.None?)
    ensures q.Val? ==> q.v == attributes.itemPackageQuantity.value[0].value.value
  {
    var entries := attributes.itemPackageQuantity;
    if entries.Some? && entries.value != [] then
      match entries.value[0].value
      case Some(n) => Val(n)
      case None => NA
    else NA
  }

  /** The `package` object the dimensions are read from, or None when the first
      dimensions entry is falsy or has no (or an empty) `package`. */
  function PackageOf(entries: seq<Option<DimensionEntry>>): Option<Package>
    requires entries != []
  {
    match entries[0]
    case None => None
    case Some(e) => e.package
  }

  /** A measure key that is absent, or present with its `value`. */
  predicate HasValue(m: Option<Measure>)
  {
    m.None? || m.value.value.Some?
  }

  /** The cell for one measure key: 'N/A' when the key is absent, otherwise its
      converted value. */
  function MeasureCell(m: Option<Measure>, convert: real -> int): Cell<int>
    requires HasValue(m)
  {
    if m.None? then NA else Val(convert(m.value.value.value))
  }

  /** The four dimension cells of one row. */
  datatype Dimensions = Dimensions(height: Cell<int>, length: Cell<int>, width: Cell<int>, weight: Cell<int>)

  /** One measure key as the source reads it: absent gives 'N/A', present
      without `value` raises KeyError. */
  function Converted(m: Option<Measure>, convert: real -> int): Result<Cell<int>, Failure>
  {
    match m
    case None => Ok(NA)
    case Some(measure) =>
      var x :- Lookup(measure.value, "value");
      Ok(Val(convert(x)))
  }

  /** The dimension cells, read key by key in the order height, length, width, weight. */
  function ExtractDimensions(dimensions: Option<seq<Option<DimensionEntry>>>): Result<Dimensions, Failure>
  {
    var entries :- Lookup(dimensions, "dimensions");
    if entries == [] then Err(IndexError("dimensions"))
    else
      match PackageOf(entries)
      case None => Ok(Dimensions(NA, NA, NA, NA))
      case Some(p) =>
        var h :- Converted(p.height, InchesToCm);
        var l :- Converted(p.length, InchesToCm);
        var w :- Converted(p.width, InchesToCm);
        var g :- Converted(p.weight, PoundsToKg);
        Ok(Dimensions(h, l, w, g))
  }

  /** A listing on which none of the source's strict lookups raises. */
  predicate WellFormed(item: Item)
  {
    && item.asin.Some?
    && item.summaries.Some? && item.summaries.value != []
    && item.summaries.value[0].itemName.Some?
    && item.attributes.Some?
    && item.dimensions.Some? && item.dimensions.value != []
    && (PackageOf(item.dimensions.value).Some? ==>
          var p := PackageOf(item.dimensions.value).value;
          HasValue(p.height) && HasValue(p.length) && HasValue(p.width) && HasValue(p.weight))
  }

  /** One listing becomes one row. The row carries the caller's barcode, search
      label and cost, never values of the listing; the pack quantity is read
      defensively; without a package every dimension is 'N/A', and with one
      each dimension depends on its own key alone. The lookups run in the
      source's order, so the first one that fails decides the error. */
  function ExtractRow(ean: string, search: string, cost: real, item: Item): (r: Result<Row, Failure>)
    ensures r.Ok? <==> WellFormed(item)
    ensures r.Err? ==> r.error.KeyError? || r.error.IndexError?
    ensures r.Ok? ==> r.value.ean == ean && r.value.searchTerm == search && r.value.cost == cost
    ensures r.Ok? ==> r.value.asin == item.asin.value
                      && r.value.itemName == item.summaries.value[0].itemName.value
    ensures r.Ok? ==> r.value.packageQuantity == PackageQuantity(item.attributes.value)
    ensures r.Ok? && PackageOf(item.dimensions.value).None? ==>
              r.value.height == NA && r.value.length == NA && r.value.width == NA && r.value.weight == NA
    ensures r.Ok? && PackageOf(item.dimensions.value).Some? ==>
              var p := PackageOf(item.dimensions.value).value;
              && r.value.height == MeasureCell(p.height, InchesToCm)
              && r.value.length == MeasureCell(p.length, InchesToCm)
              && r.value.width == MeasureCell(p.width, InchesToCm)
              && r.value.weight == MeasureCell(p.weight, PoundsToKg)
  {
    var asin :- Lookup(item.asin, "asin");
    var name :- ItemName(item);
    var attributes :- Lookup(item.attributes, "attributes");
    var dims :- ExtractDimensions(item.dimensions);
    Ok(Row(asin, ean, search, name, cost, PackageQuantity(attributes),
           dims.height, dims.length, dims.width, dims.weight))
  }

  /** The rows of a list of listings, in order; the first listing that raises
      decides the error. */
  function ExtractRows(ean: string, search: string, cost: real, items: seq<Item>): Result<seq<Row>, Failure>
  {
    if items == [] then Ok([])
    else
      var rows :- ExtractRows(ean, search, cost, items[..|items| - 1]);
      var row :- ExtractRow(ean, search, cost, items[|items| - 1]);
      Ok(rows + [row])
  }

  /** ExtractRows succeeds exactly when every listing is well formed, and then
      yields one row per listing in listing order; otherwise it reports the
      error of the first listing that is not. */
  lemma {:induction false} ExtractRowsShape(ean: string, search: string, cost: real, items: seq<Item>)
    ensures ExtractRows(ean, search, cost, items).Ok? <==> forall k | 0 <= k < |items| :: WellFormed(items[k])
    ensures ExtractRows(ean, search, cost, items).Ok? ==>
              var rows := ExtractRows(ean, search, cost, items).value;
              |rows| == |items| &&
              forall k | 0 <= k < |items| :: rows[k] == ExtractRow(ean, search, cost, items[k]).value
    ensures ExtractRows(ean, search, cost, items).Err? ==>
              exists k | 0 <= k < |items| ::
                && !WellFormed(items[k])
                && (forall j | 0 <= j < k :: WellFormed(items[j]))
                && ExtractRows(ean, search, cost, items).error == ExtractRow(ean, search, cost, items[k]).error
  {
    if items != [] {
      var n := |items| - 1;
      var front := items[..n];
      ExtractRowsShape(ean, search, cost, front);
      assert forall k | 0 <= k < n :: front[k] == items[k];
    }
  }

  /** Once a prefix of the listings raises, so does the whole list, with the same error. */
  lemma {:induction false} ExtractRowsErrPrefix(ean: string, search: string, cost: real, items: seq<Item>, i: nat)
    requires i <= |items|
    requires ExtractRows(ean, search, cost, items[..i]).Err?
    ensures ExtractRows(ean, search, cost, items) == ExtractRows(ean, search, cost, items[..i])
    decreases |items|
  {
    if i < |items| {
      var n := |items| - 1;
      assert items[..n][..i] == items[..i];
      ExtractRowsErrPrefix(ean, search, cost, items[..n], i);
    } else {
      assert items[..i] == items;
    }
  }

  /** `parse_output`: the rows of the first three listings, at most three of
      them and in listing order, each carrying the caller's barcode, label and
      cost; later listings are never looked at. */
  method ParseOutput(ean: string, search: string, itemCost: real, items: seq<Item>)
    returns (r: Result<seq<Row>, Failure>)
    ensures r == ExtractRows(ean, search, itemCost, items[..Min(MaxItems, |items|)])
    ensures r.Ok? <==> forall k | 0 <= k < Min(MaxItems, |items|) :: WellFormed(items[k])
    ensures r.Ok? ==>
              && |r.value| == Min(MaxItems, |items|)
              && forall k | 0 <= k < |r.value| :: r.value[k] == ExtractRow(ean, search, itemCost, items[k]).value
  {
    var first := items[..Min(MaxItems, |items|)];
    r := ExtractEach(ean, search, itemCost, first);
    ExtractRowsShape(ean, search, itemCost, first);
  }

  /** The loop over the listings kept: one row per listing, stopping at the
      first listing whose extraction fails. */
  method ExtractEach(ean: string, search: string, itemCost: real, first: seq<Item>)
    returns (r: Result<seq<Row>, Failure>)
    ensures r == ExtractRows(ean, search, itemCost, first)
  {
    var rows: seq<Row> := [];
    for i := 0 to |first|
      invariant ExtractRows(ean, search, itemCost, first[..i]) == Ok(rows)
    {
      var row := ExtractRow(ean, search, itemCost, first[i]);
      assert first[..i + 1][..i] == first[..i];
      if row.Err? {
        ExtractRowsErrPrefix(ean, search, itemCost, first, i + 1);
        return Err(row.error);
      }
      rows := rows + [row.value];
    }
    assert first[..|first|] == first;
    r := Ok(rows);
  }

  /** Listings after the third never influence the result. */
  lemma LaterItemsIgnored(ean: string, search: string, cost: real, items: seq<Item>, more: seq<Item>)
    requires |items| >= MaxItems
    ensures ExtractRows(ean, search, cost, (items + more)[..Min(MaxItems, |items + more|)])
         == ExtractRows(ean, search, cost, items[..Min(MaxItems, |items|)])
  {
    assert (items + more)[..MaxItems] == items[..MaxItems];
  }
}
