# Product snapshot differ

A model of `ProductDiffer` in `assignment.py`. The differ compares yesterday's ("before") and today's ("after") product exports. It emits the operations to send to a marketing channel: UPDATE or DELETE for every before product, in before order, then CREATE for every after product whose id is new, in after order.

The model has three modules:

- `Wrappers` (`wrappers.dfy`): `Option` stands for Python's `None`-or-value. `Result` stands for a value or the exception the Python code raises.
- `Products` (`products.dfy`): a product is `Product(id, data)`. `ConvertRows` builds the product list from CSV rows that are already split into fields. `FindSuitableProduct` is the linear lookup by id. `PrepareData` drops both header rows and converts both files with the after file's header row. Each of these methods is proved equal to a specification function (`Convert`, `Find`, `Prepare`), and those functions' contracts say what the result means.
- `Differ` (`differ.dfy`): `Op` holds the emitted triples as a tagged variant: `Create(id, data)`, `Update(id, data)`, `Delete(id)`. `DiffStream` runs the two loops of `main` and is proved equal to `Diff`. The lemmas about `Diff` cover:
  - classification
  - the unconditional UPDATE payload
  - order
  - completeness and length
  - the empty-input laws
  - one worked scenario

`ProductStream` is `main` without the file handling.

The code and its own docstring disagree on one point, and the model follows the code. The docstring (assignment.py:17-20) says an UPDATE is sent only when some value changed. The code (assignment.py:174-177) sends an UPDATE for every id that is still present and never compares fields. `UnchangedProductStillUpdated` states this behaviour.

The model has no "unchanged" class of products, no change-detection policy and no `RecordSet` keyed by id. The code has none of these: it works on lists in file order and matches ids with a linear scan.

Python exceptions become `Failure` values:

- A row with no fields, or with fewer fields than the header row, makes `convert_data_from_csv` raise `IndexError`. The index is `len(row)` in both cases. This is `RowTooShort(k)` for the first such row `k`, and no products are returned.
- An input with no header row makes `next(reader)` fail in `prepare_data`. This is `NoHeaderRow(side)`. The before file is read first.
- `PrepareData` and `ProductStream` report a short data row as `BadRow(side, k)`, where `k` counts data rows after the header.

Header names that repeat keep the value of their last column, exactly as the repeated dictionary assignment does. `FieldMapLastWrite` states this.

## Model

| member | source | states |
|---|---|---|
| `Products.FieldMapKeys` | assignment.py:106-107 | after the index loop, the data map's keys are exactly the header names |
| `Products.FieldMapLastWrite` | assignment.py:106-107 | a header maps to the row's field at that header's index unless a later header has the same name (last write wins) |
| `Products.RowProductFields` | assignment.py:100-107 | with distinct headers a product's id is `row[0]`, its data keys are the header names, `data[headers[i]] == row[i]` for every `i`, and the id column appears in `data` under the first header |
| `Products.Convert` | assignment.py:91-109 | conversion succeeds iff every row has an id and at least as many fields as headers; then it gives one product per row, in row order, built from that row; otherwise the error names the first row that is too short |
| `Products.ConvertRows` | assignment.py:99-109 | the row loop with its inner index loop (including the early `IndexError` exits) returns exactly `Convert`'s result |
| `Products.Find` | assignment.py:112-123 | the lookup gives `None` exactly when no product has the id; otherwise it gives a product of the list with that id |
| `Products.FindFirst` | assignment.py:120-122 | the product found is the first one in list order with that id |
| `Products.FindUnique` | assignment.py:120-122 | when ids are unique, looking up a product's own id finds that product |
| `Products.FindSuitableProduct` | assignment.py:120-123 | the scan with early return gives exactly `Find`'s result |
| `Products.Prepare` | assignment.py:150-159 | preparation fails with `NoHeaderRow` exactly when a file has no header row (before checked first) and with `BadRow` at the first data row too short for the after headers (before data first); on success both product lists have one product per data row, in order, built with the after file's header row |
| `Products.PrepareIgnoresBeforeHeader` | assignment.py:150-155 | the before file's header row never affects the result |
| `Products.PrepareData` | assignment.py:150-160 | the header skipping and the two conversions return exactly `Prepare`'s result |
| `Differ.Op.Kind` | assignment.py:61-64 | each operation variant has its own kind: CREATE, UPDATE or DELETE |
| `Differ.Op.Payload` | assignment.py:76-82 | the payload is `None` exactly for DELETE and is the carried data otherwise |
| `Differ.DiffStream` | assignment.py:174-184 | the two loops, each looking the other list up by linear scan, yield exactly `Diff(before, after)` |
| `Differ.DiffClassifiesBefore` | assignment.py:174-179 | position `k` of the stream belongs to before product `k`; it is an UPDATE iff that id occurs in after, otherwise `DELETE(id)` with no payload |
| `Differ.DiffUpdatePayload` | assignment.py:175-177 | an UPDATE carries the data of the first after product with that id, whatever the before data was |
| `Differ.UnchangedProductStillUpdated` | assignment.py:174-177 | a product present unchanged in both lists still yields an UPDATE with its data |
| `Differ.CreatePassSources` | assignment.py:181-184 | the second pass is exactly one CREATE per after product whose id no before product has, carrying its data, in strictly increasing after order, and no other after product gets one |
| `Differ.CreatePassElements` | assignment.py:181-184 | the `m`-th CREATE of the second pass is that of after product `NewIndices[m]`, whose id is in no before product, and carries its data |
| `Differ.NewIndicesIncreasing` | assignment.py:181 | the after positions that get a CREATE are listed in strictly increasing order, i.e. CREATEs follow after order |
| `Differ.NewIndicesCover` | assignment.py:181-183 | an after position gets a CREATE exactly when its id is in no before product |
| `Differ.CreatePassOnlyCreates` | assignment.py:181-184 | the second pass holds only CREATE operations |
| `Differ.CreatesComeLast` | assignment.py:174-184 | a position of the stream holds a CREATE iff it comes after all `|before|` UPDATE/DELETE operations |
| `Differ.DiffCreates` | assignment.py:181-184 | stream position `|before| + m` is the CREATE of the `m`-th new after product |
| `Differ.DiffIdAt` | assignment.py:174-184 | each stream position carries a before product's id or the id of an after product that is not in before |
| `Differ.DiffIdPresent` | assignment.py:174-184 | every id of before or after appears somewhere in the stream |
| `Differ.DiffIdsDistinct` | assignment.py:174-184 | with unique ids in each input, no two operations share an id |
| `Differ.DiffComplete` | assignment.py:174-184 | with unique ids in each input, every id of before ∪ after appears exactly once and no other id appears |
| `Differ.CreatePassLength` | assignment.py:181-184 | with unique after ids, the number of CREATEs is the number of after ids not in before |
| `Differ.DiffLength` | assignment.py:174-184 | with unique after ids the stream length is `|before| + |ids(after) - ids(before)|`; with unique ids on both sides it is `|ids(before) ∪ ids(after)|` |
| `Differ.DiffEmptyBefore` | assignment.py:174-184 | with an empty before, the stream is a CREATE for every after product, in after order |
| `Differ.DiffEmptyAfter` | assignment.py:174-179 | with an empty after, the stream is a DELETE for every before product, in before order |
| `Differ.ProductStream` | assignment.py:173-184 | `main` without the file handling: a preparation error yields that error and no operations; otherwise the result is the diff of the prepared lists |
| `Differ.Scenario` | assignment.py:150-184 | before file `1,A / 2,B` and after file `2,B2 / 3,C` (header `id,name`) give `DELETE 1`, `UPDATE 2 {id:2,name:B2}`, `CREATE 3 {id:3,name:C}` |

## Left out

- Opening the two files and the `with` block (assignment.py:171) are I/O. The model takes each file as its rows.
- `init_file_readers` and `csv.reader` (assignment.py:126-136) are the library's parsing of delimited text. Rows arrive already split into fields.
- The abstract base `ProductStreamProcessor` and its stored paths (assignment.py:67-83) hold no logic.
- Generator laziness (`yield`): the stream is built as a whole `seq<Op>`. The model keeps its order and contents, not its suspension. Because of laziness, Python raises the preparation errors only on the first pull from the stream. The model returns them as the result.
- Dictionary key order: Python dicts keep insertion order, but the model's `data` is a Dafny `map`, which has no order.
- Duplicate ids within one input: the code defines what happens (lookup finds the first match), and `Convert`, `Find`, `Diff` and most lemmas hold for any input. Only `DiffComplete`, `DiffIdsDistinct`, `DiffLength`, `CreatePassLength`, `FindUnique` and `UnchangedProductStillUpdated` require unique ids.
- The `match_id: int` annotation (assignment.py:112) is a typing inaccuracy. Ids are compared as strings.
- No input is ever changed: Dafny sequences are values, so this needs no contract.
