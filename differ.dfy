/**
  The diff stream of `ProductDiffer.main`: every before product yields an
  UPDATE (its id is still in after) or a DELETE (it is not), in before order;
  then every after product whose id no before product has yields a CREATE,
  in after order.
*/
module Differ {
  import opened Wrappers
  import opened Products

  /** The `Operation` enum. */
  datatype Operation = CREATE | UPDATE | DELETE

  /**
    One emitted triple `(operation, id, payload)`, as a tagged variant: the
    payload is a product's whole data for CREATE and UPDATE and absent for DELETE.
  */
  datatype Op = Create(id: string, data: Fields) | Update(id: string, data: Fields) | Delete(id: string)
  {
    /** The first element of the triple. */
    function Kind(): (k: Operation)
      ensures k == CREATE <==> Create?
      ensures k == UPDATE <==> Update?
      ensures k == DELETE <==> Delete?
    {
      match this
      case Create(_, _) => CREATE
      case Update(_, _) => UPDATE
      case Delete(_) => DELETE
    }

    /** The third element of the triple: `None` exactly for DELETE. */
    function Payload(): (p: Option<Fields>)
      ensures p.None? <==> Kind() == DELETE
      ensures p.Some? ==> p.value == data
    {
      if Delete? then None else Some(data)
    }
  }

  /** The operation the first pass emits for one before product. */
  function BeforeOp(b: Product, after: seq<Product>): Op
  {
    match Find(after, b.id)
    case Some(a) => Update(b.id, a.data)
    case None => Delete(b.id)
  }

  /** The first pass: one operation per before product, in before order. */
  function BeforePass(before: seq<Product>, after: seq<Product>): seq<Op>
  {
    seq(|before|, k requires 0 <= k < |before| => BeforeOp(before[k], after))
  }

  /** The second pass: a CREATE for each after product whose id is not in before, in after order. */
  function CreatePass(before: seq<Product>, after: seq<Product>): seq<Op>
    decreases |after|
  {
    if after == [] then []
    else
      var last := after[|after| - 1];
      CreatePass(before, after[..|after| - 1])
        + (if Find(before, last.id).None? then [Create(last.id, last.data)] else [])
  }

  /** The whole stream `main` yields for two product lists. */
  function Diff(before: seq<Product>, after: seq<Product>): seq<Op>
  {
    BeforePass(before, after) + CreatePass(before, after)
  }

  /** The positions in after of the products that get a CREATE, in after order. */
  ghost function NewIndices(before: seq<Product>, after: seq<Product>): seq<nat>
    decreases |after|
  {
    if after == [] then []
    else
      NewIndices(before, after[..|after| - 1])
        + (if after[|after| - 1].id !in Ids(before) then [|after| - 1] else [])
  }

  /** The two loops of `main`, each looking the other list up by linear scan. */
  method DiffStream(before: seq<Product>, after: seq<Product>) returns (ops: seq<Op>)
    ensures ops == Diff(before, after)
  {
    ops := [];
    for i := 0 to |before|
      invariant |ops| == i
      invariant forall k | 0 <= k < i :: ops[k] == BeforeOp(before[k], after)
    {
      var beforeProduct := before[i];
      var suitable := FindSuitableProduct(after, beforeProduct.id);
      if suitable.Some? {
        ops := ops + [Update(beforeProduct.id, suitable.value.data)];
      } else {
        ops := ops + [Delete(beforeProduct.id)];
      }
    }
    assert ops == BeforePass(before, after);
    for j := 0 to |after|
      invariant ops == BeforePass(before, after) + CreatePass(before, after[..j])
    {
      var afterProduct := after[j];
      var suitable := FindSuitableProduct(before, afterProduct.id);
      assert after[..j + 1][..j] == after[..j];
      if suitable.None? {
        ops := ops + [Create(afterProduct.id, afterProduct.data)];
      }
    }
    assert after[..|after|] == after;
  }

  // ----- Classification of the first pass -----

  /**
    Each before product yields exactly the operation at its own position:
    UPDATE when its id occurs in after, DELETE (no payload) otherwise.
  */
  lemma DiffClassifiesBefore(before: seq<Product>, after: seq<Product>, k: nat)
    requires k < |before|
    ensures k < |Diff(before, after)|
    ensures Diff(before, after)[k].id == before[k].id
    ensures Diff(before, after)[k].Update? <==> before[k].id in Ids(after)
    ensures Diff(before, after)[k] == Delete(before[k].id) <==> before[k].id !in Ids(after)
  {
  }

  /**
    An UPDATE's payload is the data of the first after product with that id,
    whatever the before product's data was.
  */
  lemma DiffUpdatePayload(before: seq<Product>, after: seq<Product>, k: nat, j: nat)
    requires k < |before| && j < |after| && after[j].id == before[k].id
    requires forall i | 0 <= i < j :: after[i].id != before[k].id
    ensures Diff(before, after)[k] == Update(before[k].id, after[j].data)
  {
    FindFirst(after, before[k].id, j);
  }

  /**
    No field comparison: a product that is in both lists unchanged is still
    sent as an UPDATE with its (identical) data.
  */
  lemma UnchangedProductStillUpdated(before: seq<Product>, after: seq<Product>, k: nat)
    requires k < |before| && UniqueIds(after) && before[k] in after
    ensures Diff(before, after)[k] == Update(before[k].id, before[k].data)
  {
  }

  // ----- The second pass -----

  /** The m-th CREATE of the second pass is that of after product NewIndices[m], whose id is new. */
  lemma {:induction false} CreatePassElements(before: seq<Product>, after: seq<Product>)
    ensures |CreatePass(before, after)| == |NewIndices(before, after)|
    ensures forall m | 0 <= m < |NewIndices(before, after)| ::
      && NewIndices(before, after)[m] < |after|
      && after[NewIndices(before, after)[m]].id !in Ids(before)
      && CreatePass(before, after)[m]
           == Create(after[NewIndices(before, after)[m]].id, after[NewIndices(before, after)[m]].data)
  {
    if after != [] {
      var init := after[..|after| - 1];
      CreatePassElements(before, init);
      var src, c := NewIndices(before, after), CreatePass(before, after);
      forall m | 0 <= m < |src|
        ensures src[m] < |after| && after[src[m]].id !in Ids(before)
        ensures c[m] == Create(after[src[m]].id, after[src[m]].data)
      {
        if m < |NewIndices(before, init)| {
          assert src[m] == NewIndices(before, init)[m] && c[m] == CreatePass(before, init)[m];
          assert after[src[m]] == init[src[m]];
        }
      }
    }
  }

  /** NewIndices lists after positions in strictly increasing order, all below |after|. */
  lemma {:induction false} NewIndicesIncreasing(before: seq<Product>, after: seq<Product>)
    ensures forall m | 0 <= m < |NewIndices(before, after)| :: NewIndices(before, after)[m] < |after|
    ensures forall m, n | 0 <= m < n < |NewIndices(before, after)| ::
      NewIndices(before, after)[m] < NewIndices(before, after)[n]
  {
    if after != [] {
      NewIndicesIncreasing(before, after[..|after| - 1]);
    }
  }

  /** NewIndices holds exactly the after positions whose id is not in before. */
  lemma {:induction false} NewIndicesCover(before: seq<Product>, after: seq<Product>)
    ensures forall k | 0 <= k < |after| :: after[k].id !in Ids(before) <==> k in NewIndices(before, after)
  {
    if after != [] {
      var init := after[..|after| - 1];
      NewIndicesCover(before, init);
      NewIndicesIncreasing(before, init);
      forall k | 0 <= k < |init| ensures after[k] == init[k] { }
    }
  }

  /**
    The second pass holds exactly one CREATE per after product whose id no
    before product has, carrying that product's data, in after order.
  */
  lemma CreatePassSources(before: seq<Product>, after: seq<Product>)
    ensures |CreatePass(before, after)| == |NewIndices(before, after)|
    ensures forall m | 0 <= m < |NewIndices(before, after)| ::
      && NewIndices(before, after)[m] < |after|
      && after[NewIndices(before, after)[m]].id !in Ids(before)
      && CreatePass(before, after)[m]
           == Create(after[NewIndices(before, after)[m]].id, after[NewIndices(before, after)[m]].data)
    ensures forall m, n | 0 <= m < n < |NewIndices(before, after)| ::
      NewIndices(before, after)[m] < NewIndices(before, after)[n]
    ensures forall k | 0 <= k < |after| :: after[k].id !in Ids(before) <==> k in NewIndices(before, after)
  {
    CreatePassElements(before, after);
    NewIndicesIncreasing(before, after);
    NewIndicesCover(before, after);
  }

  /** Every operation of the second pass is a CREATE. */
  lemma {:induction false} CreatePassOnlyCreates(before: seq<Product>, after: seq<Product>)
    ensures forall m | 0 <= m < |CreatePass(before, after)| :: CreatePass(before, after)[m].Create?
  {
    if after != [] {
      CreatePassOnlyCreates(before, after[..|after| - 1]);
    }
  }

  /**
    The stream is the before pass followed by the CREATEs: a position holds a
    CREATE exactly when it comes after every UPDATE and DELETE.
  */
  lemma CreatesComeLast(before: seq<Product>, after: seq<Product>)
    ensures |Diff(before, after)| >= |before|
    ensures forall k | 0 <= k < |Diff(before, after)| :: Diff(before, after)[k].Create? <==> k >= |before|
  {
    CreatePassOnlyCreates(before, after);
    var d := Diff(before, after);
    forall k | |before| <= k < |d| ensures d[k].Create? {
      assert d[k] == CreatePass(before, after)[k - |before|];
    }
  }

  /** A CREATE at position m of the stream is the CREATE of after product NewIndices[m - |before|]. */
  lemma DiffCreates(before: seq<Product>, after: seq<Product>, m: nat)
    requires m < |NewIndices(before, after)|
    ensures |before| + m < |Diff(before, after)|
    ensures NewIndices(before, after)[m] < |after|
    ensures Diff(before, after)[|before| + m]
      == Create(after[NewIndices(before, after)[m]].id, after[NewIndices(before, after)[m]].data)
  {
    CreatePassSources(before, after);
  }

  // ----- Completeness -----

  /** `id` labels exactly one operation of the stream. */
  predicate OccursOnce(ops: seq<Op>, id: string)
  {
    && (exists k | 0 <= k < |ops| :: ops[k].id == id)
    && (forall k1, k2 | 0 <= k1 < |ops| && 0 <= k2 < |ops| && ops[k1].id == id && ops[k2].id == id :: k1 == k2)
  }

  /** The id at each position of the stream: a before product's, or a new after product's. */
  lemma DiffIdAt(before: seq<Product>, after: seq<Product>, k: nat)
    requires k < |Diff(before, after)|
    ensures k < |before| ==> Diff(before, after)[k].id == before[k].id
    ensures k >= |before| ==>
      && k - |before| < |NewIndices(before, after)|
      && NewIndices(before, after)[k - |before|] < |after|
      && Diff(before, after)[k].id == after[NewIndices(before, after)[k - |before|]].id
      && Diff(before, after)[k].id !in Ids(before)
  {
    CreatePassSources(before, after);
    if k >= |before| {
      DiffCreates(before, after, k - |before|);
    }
  }

  /** Every id of before or after labels some operation of the stream. */
  lemma DiffIdPresent(before: seq<Product>, after: seq<Product>, id: string)
    requires id in Ids(before) + Ids(after)
    ensures exists k | 0 <= k < |Diff(before, after)| :: Diff(before, after)[k].id == id
  {
    var d := Diff(before, after);
    if id in Ids(before) {
      var b :| 0 <= b < |before| && before[b].id == id;
      DiffIdAt(before, after, b);
    } else {
      var src := NewIndices(before, after);
      CreatePassSources(before, after);
      var a :| 0 <= a < |after| && after[a].id == id;
      assert a in src;
      var m :| 0 <= m < |src| && src[m] == a;
      DiffCreates(before, after, m);
      assert d[|before| + m].id == id;
    }
  }

  /** With unique ids in each input, two operations of the stream never share an id. */
  lemma DiffIdsDistinct(before: seq<Product>, after: seq<Product>, k1: nat, k2: nat)
    requires UniqueIds(before) && UniqueIds(after)
    requires k1 < |Diff(before, after)| && k2 < |Diff(before, after)|
    requires Diff(before, after)[k1].id == Diff(before, after)[k2].id
    ensures k1 == k2
  {
    DiffIdAt(before, after, k1);
    DiffIdAt(before, after, k2);
    if k1 >= |before| && k2 >= |before| {
      var src := NewIndices(before, after);
      CreatePassSources(before, after);
      var m1, m2 := k1 - |before|, k2 - |before|;
      assert src[m1] == src[m2];
    }
  }

  /**
    With unique ids in each input, every id of before or after appears in
    the stream exactly once, and no other id appears.
  */
  lemma DiffComplete(before: seq<Product>, after: seq<Product>)
    requires UniqueIds(before) && UniqueIds(after)
    ensures forall k | 0 <= k < |Diff(before, after)| :: Diff(before, after)[k].id in Ids(before) + Ids(after)
    ensures forall id | id in Ids(before) + Ids(after) :: OccursOnce(Diff(before, after), id)
  {
    var d := Diff(before, after);
    forall k | 0 <= k < |d| ensures d[k].id in Ids(before) + Ids(after) {
      DiffIdAt(before, after, k);
    }
    forall id | id in Ids(before) + Ids(after) ensures OccursOnce(d, id) {
      DiffIdPresent(before, after, id);
      forall k1, k2 | 0 <= k1 < |d| && 0 <= k2 < |d| && d[k1].id == id && d[k2].id == id
        ensures k1 == k2
      {
        DiffIdsDistinct(before, after, k1, k2);
      }
    }
  }

  // ----- Length -----

  /** The ids of a non-empty list are those of all but its last product, plus the last one's. */
  lemma IdsSnoc(products: seq<Product>)
    requires products != []
    ensures Ids(products) == Ids(products[..|products| - 1]) + {products[|products| - 1].id}
  {
  }

  /** Without duplicate ids, a list has as many ids as products. */
  lemma {:induction false} UniqueIdsCount(products: seq<Product>)
    requires UniqueIds(products)
    ensures |Ids(products)| == |products|
  {
    if products != [] {
      var init := products[..|products| - 1];
      var last := products[|products| - 1];
      assert UniqueIds(init) by {
        forall i, j | 0 <= i < |init| && 0 <= j < |init| && init[i].id == init[j].id ensures i == j {
          assert products[i].id == products[j].id;
        }
      }
      UniqueIdsCount(init);
      IdsSnoc(products);
      forall k | 0 <= k < |init| ensures init[k].id != last.id {
        assert init[k] == products[k];
      }
    }
  }

  /** Without duplicate after ids, the second pass has one CREATE per id new in after. */
  lemma {:induction false} CreatePassLength(before: seq<Product>, after: seq<Product>)
    requires UniqueIds(after)
    ensures |CreatePass(before, after)| == |Ids(after) - Ids(before)|
  {
    if after != [] {
      var init := after[..|after| - 1];
      var last := after[|after| - 1];
      assert UniqueIds(init) by {
        forall i, j | 0 <= i < |init| && 0 <= j < |init| && init[i].id == init[j].id ensures i == j {
          assert after[i].id == after[j].id;
        }
      }
      CreatePassLength(before, init);
      IdsSnoc(after);
      forall k | 0 <= k < |init| ensures init[k].id != last.id {
        assert init[k] == after[k];
      }
      if last.id !in Ids(before) {
        assert Ids(after) - Ids(before) == (Ids(init) - Ids(before)) + {last.id};
      } else {
        assert Ids(after) - Ids(before) == Ids(init) - Ids(before);
      }
    }
  }

  /**
    The stream's length is |before| plus the number of after ids that are
    new; with unique ids on both sides that is the number of ids in
    before and after together.
  */
  lemma DiffLength(before: seq<Product>, after: seq<Product>)
    requires UniqueIds(after)
    ensures |Diff(before, after)| == |before| + |Ids(after) - Ids(before)|
    ensures UniqueIds(before) ==> |Diff(before, after)| == |Ids(before) + Ids(after)|
  {
    CreatePassLength(before, after);
    if UniqueIds(before) {
      UniqueIdsCount(before);
      var a, n := Ids(before), Ids(after) - Ids(before);
      assert a + n == Ids(before) + Ids(after);
      assert a * n == {};
    }
  }

  // ----- Empty inputs -----

  /** With nothing before, the stream is a CREATE for every after product, in after order. */
  lemma {:induction false} DiffEmptyBefore(after: seq<Product>)
    ensures Diff([], after) == seq(|after|, k requires 0 <= k < |after| => Create(after[k].id, after[k].data))
  {
    if after != [] {
      var init := after[..|after| - 1];
      DiffEmptyBefore(init);
      assert BeforePass([], after) == [] && BeforePass([], init) == [];
      assert CreatePass([], after) == CreatePass([], init) + [Create(after[|after| - 1].id, after[|after| - 1].data)];
      var d := Diff([], after);
      assert |d| == |after|;
      forall k | 0 <= k < |after| ensures d[k] == Create(after[k].id, after[k].data) {
        if k < |init| {
          assert d[k] == Diff([], init)[k];
          assert init[k] == after[k];
        }
      }
    }
  }

  /** With nothing after, the stream is a DELETE for every before product, in before order. */
  lemma DiffEmptyAfter(before: seq<Product>)
    ensures Diff(before, []) == seq(|before|, k requires 0 <= k < |before| => Delete(before[k].id))
  {
  }

  // ----- The whole of `main` -----

  /**
    `main` minus the file handling: prepare both inputs, then run the two
    passes; when preparation raises, nothing is emitted.
  */
  method ProductStream(beforeRows: seq<Row>, afterRows: seq<Row>) returns (r: Result<seq<Op>, PrepareError>)
    ensures Prepare(beforeRows, afterRows).Failure? ==> r == Failure(Prepare(beforeRows, afterRows).error)
    ensures Prepare(beforeRows, afterRows).Success? ==>
      r == Success(Diff(Prepare(beforeRows, afterRows).value.0, Prepare(beforeRows, afterRows).value.1))
  {
    var prepared := PrepareData(beforeRows, afterRows);
    if prepared.Failure? {
      return Failure(prepared.error);
    }
    var ops := DiffStream(prepared.value.0, prepared.value.1);
    return Success(ops);
  }

  /** A row of the two-column scenario files below. */
  lemma TwoColumnProduct(id: string, name: string)
    ensures RowProduct([id, name], ["id", "name"]) == Product(id, map["id" := id, "name" := name])
  {
    assert FieldMap([id, name], ["id", "name"], 1) == map["id" := id];
  }

  /** Converting two rows that are long enough. */
  lemma ConvertTwoRows(r1: Row, r2: Row, headers: seq<string>)
    requires !TooShort(r1, headers) && !TooShort(r2, headers)
    ensures Convert([r1, r2], headers) == Success([RowProduct(r1, headers), RowProduct(r2, headers)])
  {
    var c := Convert([r1, r2], headers);
    assert c.Success?;
    assert |c.value| == 2 && c.value[0] == RowProduct(r1, headers) && c.value[1] == RowProduct(r2, headers);
    assert c.value == [c.value[0], c.value[1]];
  }

  /**
    Two small files: product 1 disappears, product 2 changes its name and
    product 3 is new.
  */
  lemma Scenario()
    ensures Prepare([["id", "name"], ["1", "A"], ["2", "B"]], [["id", "name"], ["2", "B2"], ["3", "C"]]).Success?
    ensures var p := Prepare([["id", "name"], ["1", "A"], ["2", "B"]], [["id", "name"], ["2", "B2"], ["3", "C"]]).value;
      Diff(p.0, p.1)
        == [Delete("1"), Update("2", map["id" := "2", "name" := "B2"]), Create("3", map["id" := "3", "name" := "C"])]
  {
    var headers := ["id", "name"];
    var p1, p2 := Product("1", map["id" := "1", "name" := "A"]), Product("2", map["id" := "2", "name" := "B"]);
    var q2, q3 := Product("2", map["id" := "2", "name" := "B2"]), Product("3", map["id" := "3", "name" := "C"]);
    TwoColumnProduct("1", "A");
    TwoColumnProduct("2", "B");
    TwoColumnProduct("2", "B2");
    TwoColumnProduct("3", "C");
    assert [headers, ["1", "A"], ["2", "B"]][1..] == [["1", "A"], ["2", "B"]];
    assert [headers, ["2", "B2"], ["3", "C"]][1..] == [["2", "B2"], ["3", "C"]];
    ConvertTwoRows(["1", "A"], ["2", "B"], headers);
    ConvertTwoRows(["2", "B2"], ["3", "C"], headers);
    assert Prepare([headers, ["1", "A"], ["2", "B"]], [headers, ["2", "B2"], ["3", "C"]]) == Success(([p1, p2], [q2, q3]));
    assert Find([q2, q3], "1") == None;
    assert Find([q2, q3], "2") == Some(q2);
    assert Find([p1, p2], "2") == Some(p2);
    assert Find([p1, p2], "3") == None;
    assert [q2, q3][..1] == [q2];
    assert CreatePass([p1, p2], [q2]) == [];
  }
}
