/** The products page: saving a product from the editor's rows (new or edit)
    and deleting a product together with its formula. */
module Products {
  import Text
  import opened Store

  /** An editor row whose ingredient field is empty once stripped; such rows
      are skipped, whatever their percentage field holds. */
  predicate Blank(row: Row) {
    Text.Strip(row.ingredient) == []
  }

  /** The editor rows as the formula stores them: blank rows dropped, the
      others with stripped ingredient names, in editor order. */
  function Normalize(rows: seq<Row>): (f: Formula)
    ensures |f| <= |rows|
    ensures forall k :: 0 <= k < |f| ==> IsName(f[k].ingredient)
    ensures forall i :: 0 <= i < |rows| && !Blank(rows[i]) ==>
              Row(Text.Strip(rows[i].ingredient), rows[i].percentage) in f
    decreases |rows|
  {
    if rows == [] then []
    else
      var tail := Normalize(rows[1..]);
      if Blank(rows[0]) then tail
      else
        Text.StripSpec(rows[0].ingredient);
        [Row(Text.Strip(rows[0].ingredient), rows[0].percentage)] + tail
  }

  /** Only non-blank editor rows are kept: every kept row is the stripped
      form of one of them. */
  lemma {:induction false} NormalizeOnlyFilled(rows: seq<Row>)
    ensures forall x :: x in Normalize(rows) ==>
              exists i :: 0 <= i < |rows| && !Blank(rows[i])
                          && x == Row(Text.Strip(rows[i].ingredient), rows[i].percentage)
    decreases |rows|
  {
    if rows != [] {
      NormalizeOnlyFilled(rows[1..]);
      forall x | x in Normalize(rows)
        ensures exists i :: 0 <= i < |rows| && !Blank(rows[i])
                            && x == Row(Text.Strip(rows[i].ingredient), rows[i].percentage)
      {
        if !Blank(rows[0]) && x == Row(Text.Strip(rows[0].ingredient), rows[0].percentage) {
        } else {
          assert x in Normalize(rows[1..]);
          var j :| 0 <= j < |rows[1..]| && !Blank(rows[1..][j])
                   && x == Row(Text.Strip(rows[1..][j].ingredient), rows[1..][j].percentage);
          assert rows[1..][j] == rows[j + 1];
        }
      }
    }
  }

  /** Kept rows stay in editor order: the rows of two consecutive parts of
      the editor are those of the first part followed by those of the second. */
  lemma {:induction false} NormalizeAppend(a: seq<Row>, b: seq<Row>)
    ensures Normalize(a + b) == Normalize(a) + Normalize(b)
    decreases |a|
  {
    if a == [] {
      assert a + b == b;
    } else {
      assert (a + b)[1..] == a[1..] + b;
      NormalizeAppend(a[1..], b);
    }
  }

  /** The row loop of the editor's save: the first non-blank row, in editor
      order, whose percentage is not above zero stops the save; otherwise the
      normalized rows are kept. */
  function KeptRows(rows: seq<Row>): (r: Result<Formula>)
    ensures r.Ok? <==> forall i :: 0 <= i < |rows| && !Blank(rows[i]) ==> rows[i].percentage > 0.0
    ensures r.Ok? ==> r.value == Normalize(rows)
    ensures r.Ok? ==> forall k :: 0 <= k < |r.value| ==> r.value[k].percentage > 0.0
    ensures r.Err? ==> exists i :: 0 <= i < |rows| && !Blank(rows[i]) && rows[i].percentage <= 0.0
                          && r.error == PercentageNotPositive(Text.Strip(rows[i].ingredient))
                          && forall j :: 0 <= j < i && !Blank(rows[j]) ==> rows[j].percentage > 0.0
    decreases |rows|
  {
    if rows == [] then Ok([])
    else
      var ing := Text.Strip(rows[0].ingredient);
      if ing == [] then KeptRows(rows[1..])
      else if rows[0].percentage <= 0.0 then Err(PercentageNotPositive(ing))
      else
        match KeptRows(rows[1..])
        case Err(e) => Err(e)
        case Ok(t) => Ok([Row(ing, rows[0].percentage)] + t)
  }

  /** Some product other than `except` already carries `name`. */
  predicate NameInUse(products: map<nat, Product>, name: string, except: Option<nat>) {
    exists id :: id in products && products[id].name == name && except != Some(id)
  }

  /** The editor's Save. `editing` is None for "Add New Product" and the
      product id for "Edit Selected". The editor holds MaxRows rows; fewer
      rows stand for a form whose remaining rows are blank. On success a new
      product gets a fresh id, and an edited product has its name and whole
      formula replaced; stock and history are untouched. */
  function SaveProduct(st: State, editing: Option<nat>, name: string, rows: seq<Row>): (r: Result<State>)
    requires |rows| <= MaxRows
    ensures Text.Strip(name) == [] ==> r == Err(ProductNameRequired)
    ensures r.Ok? ==> Text.Strip(name) != [] && KeptRows(rows).Ok? && |KeptRows(rows).value| >= 1
    ensures Text.Strip(name) != [] && KeptRows(rows).Err? ==> r == Err(KeptRows(rows).error)
    ensures Text.Strip(name) != [] && KeptRows(rows) == Ok([]) ==> r == Err(NoIngredients)
    ensures (Text.Strip(name) != [] && KeptRows(rows).Ok? && KeptRows(rows).value != []
             && NameInUse(st.products, Text.Strip(name), editing))
            ==> r == Err(DuplicateProduct)
    ensures (Text.Strip(name) != [] && KeptRows(rows).Ok? && KeptRows(rows).value != []
             && !NameInUse(st.products, Text.Strip(name), editing)
             && editing.Some? && editing.value !in st.products)
            ==> r == Err(ProductNotFound)
    ensures Text.Strip(name) != [] && KeptRows(rows).Ok? && KeptRows(rows).value != [] ==>
              (r.Ok? <==> !NameInUse(st.products, Text.Strip(name), editing)
                          && (editing.Some? ==> editing.value in st.products))
    ensures r.Ok? && editing.None? ==>
              && r.value.products.Keys == st.products.Keys + {st.nextProductId}
              && r.value.products[st.nextProductId] == Product(Text.Strip(name), KeptRows(rows).value)
              && (forall id :: id in st.products && id != st.nextProductId ==>
                    r.value.products[id] == st.products[id])
              && r.value.nextProductId == st.nextProductId + 1
    ensures r.Ok? && editing.Some? ==>
              && r.value.products.Keys == st.products.Keys
              && r.value.products[editing.value] == Product(Text.Strip(name), KeptRows(rows).value)
              && (forall id :: id in st.products && id != editing.value ==> r.value.products[id] == st.products[id])
              && r.value.nextProductId == st.nextProductId
    ensures r.Ok? ==> r.value.stock == st.stock && r.value.history == st.history
  {
    var n := Text.Strip(name);
    if n == [] then Err(ProductNameRequired)
    else
      match KeptRows(rows)
      case Err(e) => Err(e)
      case Ok(f) =>
        if f == [] then Err(NoIngredients)
        else if NameInUse(st.products, n, editing) then Err(DuplicateProduct)
        else
          match editing
          case None =>
            Ok(st.(products := st.products[st.nextProductId := Product(n, f)],
                   nextProductId := st.nextProductId + 1))
          case Some(pid) =>
            if pid !in st.products then Err(ProductNotFound)
            else Ok(st.(products := st.products[pid := Product(n, f)]))
  }

  /** Saving keeps the store valid: the new id is fresh, the name stays
      unique, and the stored formula has 1 to MaxRows named rows with
      positive percentages. */
  lemma SavePreservesValid(st: State, editing: Option<nat>, name: string, rows: seq<Row>)
    requires Valid(st)
    requires |rows| <= MaxRows
    requires SaveProduct(st, editing, name, rows).Ok?
    ensures Valid(SaveProduct(st, editing, name, rows).value)
  {
    var r := SaveProduct(st, editing, name, rows).value;
    var n := Text.Strip(name);
    Text.StripSpec(name);
    var f := KeptRows(rows).value;
    assert ValidFormula(f);
    assert IsName(n);
    var id := if editing.None? then st.nextProductId else editing.value;
    assert r.products == st.products[id := Product(n, f)];
    assert !NameInUse(st.products, n, editing);
    ValidProductsPut(st.products, st.nextProductId, id, Product(n, f), r.nextProductId);
  }

  /** Deletes the product and its formula rows; production records that
      refer to it are kept. Once the newest product is gone, sqlite hands out
      ids again from the largest remaining id plus one. */
  function DeleteProduct(st: State, pid: nat): (r: State)
    ensures r.products.Keys == st.products.Keys - {pid}
    ensures forall id :: id in r.products ==> r.products[id] == st.products[id]
    ensures r.stock == st.stock && r.history == st.history
  {
    var ps := st.products - {pid};
    st.(products := ps, nextProductId := NextProductIdBelow(ps, st.nextProductId))
  }

  /** Deleting a product keeps the store valid. */
  lemma DeleteProductPreservesValid(st: State, pid: nat)
    requires Valid(st)
    ensures Valid(DeleteProduct(st, pid))
  {
    var ps := st.products - {pid};
    var next := NextProductIdBelow(ps, st.nextProductId);
    assert DeleteProduct(st, pid) == st.(products := ps, nextProductId := next);
    forall k | k in st.products && k != pid ensures k < next {
      assert k in ps && k < st.nextProductId;
    }
    ValidProductsRemove(st.products, st.nextProductId, pid, next);
  }

  /** The next product id stays as it is unless the newest product goes;
      then it drops to the largest remaining id plus one, which is the
      deleted id when its predecessor is in use. */
  lemma DeleteProductNextId(st: State, pid: nat)
    requires ValidProducts(st.products, st.nextProductId)
    ensures pid + 1 != st.nextProductId ==> DeleteProduct(st, pid).nextProductId == st.nextProductId
    ensures pid + 1 == st.nextProductId && pid in st.products ==>
              var next := DeleteProduct(st, pid).nextProductId;
              && (next <= pid || next == 1)
              && (pid == 1 || pid - 1 in st.products ==> next == pid)
  {
    var ps := st.products - {pid};
    var top := TopBelow(ps, st.nextProductId);
    assert DeleteProduct(st, pid).nextProductId == if top == 0 then 1 else top;
    if pid + 1 == st.nextProductId && pid - 1 in st.products && pid >= 1 {
      assert top == TopBelow(ps, pid) == pid;
    } else if pid + 1 != st.nextProductId && st.nextProductId > 1 {
      assert top == st.nextProductId;
    }
  }

  /** Blank rows anywhere after the filled ones change nothing, so a form of
      MaxRows rows and its filled prefix save alike. */
  lemma {:induction false} BlankRowsIgnored(rows: seq<Row>, blanks: seq<Row>)
    requires forall i :: 0 <= i < |blanks| ==> Blank(blanks[i])
    ensures KeptRows(rows + blanks) == KeptRows(rows)
    decreases |rows| + |blanks|
  {
    if rows == [] {
      assert rows + blanks == blanks;
      if blanks != [] {
        BlankRowsIgnored([], blanks[1..]);
        assert [] + blanks[1..] == blanks[1..];
      }
    } else {
      assert (rows + blanks)[1..] == rows[1..] + blanks;
      BlankRowsIgnored(rows[1..], blanks);
    }
  }

  /** A newly saved product is what the production page then finds under its
      stripped name, with the kept rows as its formula. */
  lemma SaveNewIsFound(st: State, name: string, rows: seq<Row>)
    requires Valid(st)
    requires |rows| <= MaxRows
    requires SaveProduct(st, None, name, rows).Ok?
    ensures var s1 := SaveProduct(st, None, name, rows).value;
            && FindProduct(s1, Text.Strip(name)) == Some(st.nextProductId)
            && CurrentFormula(s1.products, st.nextProductId) == KeptRows(rows).value
  {
    var s1 := SaveProduct(st, None, name, rows).value;
    SavePreservesValid(st, None, name, rows);
    FindProductExact(s1, Text.Strip(name), st.nextProductId);
  }

  /** Saving a second new product under a name in use inserts nothing. */
  lemma SaveNewTwiceFails(st: State, name: string, rows: seq<Row>, rows2: seq<Row>)
    requires |rows| <= MaxRows && |rows2| <= MaxRows
    requires SaveProduct(st, None, name, rows).Ok?
    requires KeptRows(rows2).Ok? && KeptRows(rows2).value != []
    ensures SaveProduct(SaveProduct(st, None, name, rows).value, None, name, rows2) == Err(DuplicateProduct)
  {
    var s1 := SaveProduct(st, None, name, rows).value;
    assert s1.products[st.nextProductId].name == Text.Strip(name);
  }

  /** Deleting the product just added gives back the state of before, the
      next product id included. */
  lemma DeleteUndoesSaveNew(st: State, name: string, rows: seq<Row>)
    requires Valid(st)
    requires |rows| <= MaxRows
    requires SaveProduct(st, None, name, rows).Ok?
    ensures DeleteProduct(SaveProduct(st, None, name, rows).value, st.nextProductId) == st
  {
    var p := Product(Text.Strip(name), KeptRows(rows).value);
    assert SaveProduct(st, None, name, rows)
           == Ok(st.(products := st.products[st.nextProductId := p], nextProductId := st.nextProductId + 1));
    DeleteUndoesInsert(st, p);
  }

  /** Inserting a product under the next id and deleting it again gives
      back the state of before. */
  lemma DeleteUndoesInsert(st: State, p: Product)
    requires Valid(st)
    ensures var n := st.nextProductId;
            DeleteProduct(st.(products := st.products[n := p], nextProductId := n + 1), n) == st
  {
    var n := st.nextProductId;
    assert st.products[n := p] - {n} == st.products;
    assert TopBelow(st.products, n + 1) == TopBelow(st.products, n);
    assert NextProductIdBelow(st.products, n + 1) == n;
  }

  /** `pid` is the newest product, and the id just below it is in use (or
      `pid` is 1). */
  predicate NewestAfterPredecessor(st: State, pid: nat) {
    pid in st.products && pid + 1 == st.nextProductId && (pid == 1 || pid - 1 in st.products)
  }

  /** Ids are reused: after the newest product is deleted (its predecessor
      id still in use), the next product saved gets the deleted id. */
  lemma DeletedTopIdIsReused(st: State, pid: nat, name: string, rows: seq<Row>)
    requires Valid(st)
    requires NewestAfterPredecessor(st, pid)
    requires |rows| <= MaxRows
    requires SaveProduct(DeleteProduct(st, pid), None, name, rows).Ok?
    ensures var s2 := SaveProduct(DeleteProduct(st, pid), None, name, rows).value;
            && pid in s2.products && s2.products[pid] == Product(Text.Strip(name), KeptRows(rows).value)
            && s2.stock == st.stock && s2.history == st.history
  {
    DeleteProductNextId(st, pid);
    DeleteProductPreservesValid(st, pid);
  }

  /** Percentages are independent ratios: two rows summing to 120 are accepted. */
  lemma PercentagesNeedNotSumTo100()
    ensures KeptRows([Row("Flour", 60.0), Row("Sugar", 60.0)]) == Ok([Row("Flour", 60.0), Row("Sugar", 60.0)])
  {
    var rows := [Row("Flour", 60.0), Row("Sugar", 60.0)];
    Text.StrippedIsFixed("Flour");
    Text.StrippedIsFixed("Sugar");
    assert rows[1..] == [Row("Sugar", 60.0)];
    assert rows[1..][1..] == [];
    assert Normalize(rows[1..]) == [Row("Sugar", 60.0)];
    assert Normalize(rows) == [Row("Flour", 60.0), Row("Sugar", 60.0)];
  }
}
