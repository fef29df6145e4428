/**
  Product records of the differ: turning already-split CSV rows into products
  (`convert_data_from_csv`), looking a product up by id
  (`find_suitable_product`) and the header handling of `prepare_data`.
*/
module Products {
  import opened Wrappers

  /** One CSV row, already split into its fields. */
  type Row = seq<string>

  /** A product's data: column name to column value. */
  type Fields = map<string, string>

  /** A product as `convert_data_from_csv` builds it: `{'id': ..., 'data': {...}}`. */
  datatype Product = Product(id: string, data: Fields)

  /**
    The only way a row can fail to convert: Python reads `row[0]` and then
    `row[idx]` for every header index, and raises `IndexError` at the first
    index past the end of the row. `row` is the position of that row.
  */
  datatype RowError = RowTooShort(row: nat)

  /** Which of the two input files. */
  datatype Side = Before | After

  /** Why `prepare_data` raises instead of returning the two product lists. */
  datatype PrepareError =
    | NoHeaderRow(side: Side)             // `next(reader)` on an empty file
    | BadRow(side: Side, row: nat)        // a data row (counted after the header) is too short

  /** A row is too short when it has no id column or fewer fields than there are headers. */
  predicate TooShort(row: Row, headers: seq<string>)
  {
    |row| == 0 || |row| < |headers|
  }

  /**
    The `data` map after the first `n` steps of the index loop: each step
    stores `row[idx]` under `headers[idx]`, so a repeated header keeps the
    value of its last occurrence.
  */
  function FieldMap(row: Row, headers: seq<string>, n: nat): Fields
    requires n <= |headers| && n <= |row|
    decreases n
  {
    if n == 0 then map[]
    else FieldMap(row, headers, n - 1)[headers[n - 1] := row[n - 1]]
  }

  /** The set of the first `n` header names. */
  function HeaderNames(headers: seq<string>, n: nat): set<string>
    requires n <= |headers|
  {
    set i | 0 <= i < n :: headers[i]
  }

  /** The product built from one row that is long enough. */
  function RowProduct(row: Row, headers: seq<string>): Product
    requires !TooShort(row, headers)
  {
    Product(row[0], FieldMap(row, headers, |headers|))
  }

  /** The map's keys are exactly the header names stored so far. */
  lemma {:induction false} FieldMapKeys(row: Row, headers: seq<string>, n: nat)
    requires n <= |headers| && n <= |row|
    ensures FieldMap(row, headers, n).Keys == HeaderNames(headers, n)
  {
    if n > 0 {
      FieldMapKeys(row, headers, n - 1);
      assert HeaderNames(headers, n) == HeaderNames(headers, n - 1) + {headers[n - 1]};
    }
  }

  /**
    The value under a header is the row's field at that header's index, as
    long as no later header has the same name (the later write would win).
  */
  lemma {:induction false} FieldMapLastWrite(row: Row, headers: seq<string>, n: nat, i: nat)
    requires n <= |headers| && n <= |row| && i < n
    requires forall j | i < j < n :: headers[j] != headers[i]
    ensures headers[i] in FieldMap(row, headers, n)
    ensures FieldMap(row, headers, n)[headers[i]] == row[i]
  {
    if i < n - 1 {
      FieldMapLastWrite(row, headers, n - 1, i);
    }
  }

  /** No header name occurs twice. */
  predicate DistinctHeaders(headers: seq<string>)
  {
    forall i, j | 0 <= i < |headers| && 0 <= j < |headers| && headers[i] == headers[j] :: i == j
  }

  /**
    With distinct headers, a converted product's id is the row's first field,
    its data keys are exactly the header names, and every header maps to the
    field at its own index (so the id column also appears in `data`).
  */
  lemma RowProductFields(row: Row, headers: seq<string>)
    requires !TooShort(row, headers) && DistinctHeaders(headers)
    ensures RowProduct(row, headers).id == row[0]
    ensures RowProduct(row, headers).data.Keys == HeaderNames(headers, |headers|)
    ensures forall i | 0 <= i < |headers| :: RowProduct(row, headers).data[headers[i]] == row[i]
    ensures |headers| > 0 ==> RowProduct(row, headers).data[headers[0]] == RowProduct(row, headers).id
  {
    FieldMapKeys(row, headers, |headers|);
    forall i | 0 <= i < |headers|
      ensures RowProduct(row, headers).data[headers[i]] == row[i]
    {
      FieldMapLastWrite(row, headers, |headers|, i);
    }
  }

  /**
    `convert_data_from_csv`: one product per row, in row order, or the
    `IndexError` raised at the first row that is too short.
  */
  function Convert(rows: seq<Row>, headers: seq<string>): (r: Result<seq<Product>, RowError>)
    decreases |rows|
    ensures r.Success? <==> forall k | 0 <= k < |rows| :: !TooShort(rows[k], headers)
    ensures r.Success? ==>
      && |r.value| == |rows|
      && forall k | 0 <= k < |rows| :: !TooShort(rows[k], headers) && r.value[k] == RowProduct(rows[k], headers)
    ensures r.Failure? ==>
      && r.error.row < |rows|
      && TooShort(rows[r.error.row], headers)
      && forall k | 0 <= k < r.error.row :: !TooShort(rows[k], headers)
  {
    if rows == [] then Success([])
    else if TooShort(rows[0], headers) then Failure(RowTooShort(0))
    else match Convert(rows[1..], headers)
      case Success(rest) => Success([RowProduct(rows[0], headers)] + rest)
      case Failure(e) => Failure(RowTooShort(e.row + 1))
  }

  /** The row loop of `convert_data_from_csv`, with its inner index loop. */
  method ConvertRows(rows: seq<Row>, headers: seq<string>) returns (r: Result<seq<Product>, RowError>)
    ensures r == Convert(rows, headers)
  {
    var products: seq<Product> := [];
    var headersCnt := |headers|;
    for k := 0 to |rows|
      invariant |products| == k
      invariant forall j | 0 <= j < k :: !TooShort(rows[j], headers) && products[j] == RowProduct(rows[j], headers)
    {
      var row := rows[k];
      if |row| == 0 {
        return Failure(RowTooShort(k));
      }
      var id := row[0];
      var data: Fields := map[];
      for idx := 0 to headersCnt
        invariant idx <= |row|
        invariant data == FieldMap(row, headers, idx)
      {
        if idx >= |row| {
          return Failure(RowTooShort(k));
        }
        data := data[headers[idx] := row[idx]];
      }
      products := products + [Product(id, data)];
    }
    assert products == Convert(rows, headers).value;
    return Success(products);
  }

  /** The ids of a product list. */
  function Ids(products: seq<Product>): set<string>
  {
    set k | 0 <= k < |products| :: products[k].id
  }

  /** No two products of the list share an id. */
  predicate UniqueIds(products: seq<Product>)
  {
    forall i, j | 0 <= i < |products| && 0 <= j < |products| && products[i].id == products[j].id :: i == j
  }

  /**
    `find_suitable_product`: the first product whose id equals `id`, or
    `None` exactly when there is none.
  */
  function Find(products: seq<Product>, id: string): (r: Option<Product>)
    decreases |products|
    ensures r.None? <==> id !in Ids(products)
    ensures r.Some? ==> r.value.id == id && r.value in products
  {
    if products == [] then None
    else if products[0].id == id then Some(products[0])
    else
      assert id in Ids(products) <==> id in Ids(products[1..]) by {
        if id in Ids(products) {
          var k :| 0 <= k < |products| && products[k].id == id;
          assert products[1..][k - 1].id == id;
        }
      }
      Find(products[1..], id)
  }

  /** What Find returns is the FIRST product with that id. */
  lemma {:induction false} FindFirst(products: seq<Product>, id: string, k: nat)
    requires k < |products| && products[k].id == id
    requires forall j | 0 <= j < k :: products[j].id != id
    ensures Find(products, id) == Some(products[k])
  {
    if k > 0 {
      FindFirst(products[1..], id, k - 1);
    }
  }

  /** When ids are unique, looking up a product's own id finds that product. */
  lemma FindUnique(products: seq<Product>, k: nat)
    requires UniqueIds(products) && k < |products|
    ensures Find(products, products[k].id) == Some(products[k])
  {
  }

  /** The linear scan of `find_suitable_product`, returning early on a match. */
  method FindSuitableProduct(products: seq<Product>, matchId: string) returns (r: Option<Product>)
    ensures r == Find(products, matchId)
  {
    for i := 0 to |products|
      invariant forall j | 0 <= j < i :: products[j].id != matchId
    {
      if products[i].id == matchId {
        FindFirst(products, matchId, i);
        return Some(products[i]);
      }
    }
    return None;
  }

  /**
    `prepare_data`: drop the header row of each file and convert both files'
    data rows with the AFTER file's header row; before is read first.
  */
  function Prepare(beforeRows: seq<Row>, afterRows: seq<Row>): (r: Result<(seq<Product>, seq<Product>), PrepareError>)
    ensures r.Success? <==>
      && |beforeRows| > 0 && |afterRows| > 0
      && (forall k | 1 <= k < |beforeRows| :: !TooShort(beforeRows[k], afterRows[0]))
      && (forall k | 1 <= k < |afterRows| :: !TooShort(afterRows[k], afterRows[0]))
    ensures r.Success? ==>
      && |r.value.0| == |beforeRows| - 1
      && (forall k | 1 <= k < |beforeRows| ::
            !TooShort(beforeRows[k], afterRows[0]) && r.value.0[k - 1] == RowProduct(beforeRows[k], afterRows[0]))
      && |r.value.1| == |afterRows| - 1
      && (forall k | 1 <= k < |afterRows| ::
            !TooShort(afterRows[k], afterRows[0]) && r.value.1[k - 1] == RowProduct(afterRows[k], afterRows[0]))
    ensures r == Failure(NoHeaderRow(Before)) <==> beforeRows == []
    ensures r == Failure(NoHeaderRow(After)) <==> beforeRows != [] && afterRows == []
    ensures r.Failure? && r.error.BadRow? && r.error.side == Before ==>
      && |afterRows| > 0
      && r.error.row + 1 < |beforeRows|
      && TooShort(beforeRows[r.error.row + 1], afterRows[0])
      && (forall k | 1 <= k <= r.error.row :: !TooShort(beforeRows[k], afterRows[0]))
    ensures r.Failure? && r.error.BadRow? && r.error.side == After ==>
      && |beforeRows| > 0
      && r.error.row + 1 < |afterRows|
      && TooShort(afterRows[r.error.row + 1], afterRows[0])
      && (forall k | 1 <= k < |beforeRows| :: !TooShort(beforeRows[k], afterRows[0]))
      && (forall k | 1 <= k <= r.error.row :: !TooShort(afterRows[k], afterRows[0]))
  {
    if beforeRows == [] then Failure(NoHeaderRow(Before))
    else if afterRows == [] then Failure(NoHeaderRow(After))
    else
      var headers := afterRows[0];
      match Convert(beforeRows[1..], headers)
      case Failure(e) => Failure(BadRow(Before, e.row))
      case Success(before) =>
        match Convert(afterRows[1..], headers)
        case Failure(e) => Failure(BadRow(After, e.row))
        case Success(after) => Success((before, after))
  }

  /** The before file's own header row is read and thrown away: its contents never matter. */
  lemma PrepareIgnoresBeforeHeader(h1: Row, h2: Row, beforeData: seq<Row>, afterRows: seq<Row>)
    ensures Prepare([h1] + beforeData, afterRows) == Prepare([h2] + beforeData, afterRows)
  {
  }

  /** `prepare_data` as the source runs it: header rows first, then the two conversions. */
  method PrepareData(beforeRows: seq<Row>, afterRows: seq<Row>) returns (r: Result<(seq<Product>, seq<Product>), PrepareError>)
    ensures r == Prepare(beforeRows, afterRows)
  {
    if |beforeRows| == 0 {
      return Failure(NoHeaderRow(Before));
    }
    if |afterRows| == 0 {
      return Failure(NoHeaderRow(After));
    }
    var fileHeaders := afterRows[0];
    var before := ConvertRows(beforeRows[1..], fileHeaders);
    if before.Failure? {
      return Failure(BadRow(Before, before.error.row));
    }
    var after := ConvertRows(afterRows[1..], fileHeaders);
    if after.Failure? {
      return Failure(BadRow(After, after.error.row));
    }
    return Success((before.value, after.value));
  }
}
