/** The production page: checking a planned production against stock,
    confirming it (debit every formula row and append a history record, or
    change nothing), and deleting a history record (credit the product's
    current formula back and remove the record). */
module Production {
  import Text
  import opened Store
  import opened Ledger
  import Products

  /** One line of the requirements table. */
  datatype Requirement = Requirement(
    ingredient: string,
    percentage: real,
    required: real,
    available: real,
    sufficient: bool)

  /** The requirements table: one line per formula row, in formula order,
      with what the row needs for `kilos` of product and what stock holds. */
  function Requirements(stock: map<string, Ingredient>, f: Formula, kilos: real): (r: seq<Requirement>)
    ensures |r| == |f|
    ensures forall i :: 0 <= i < |f| ==>
              && r[i].ingredient == f[i].ingredient
              && r[i].percentage == f[i].percentage
              && r[i].required == kilos * (f[i].percentage / 100.0)
              && r[i].available == (if f[i].ingredient in stock then stock[f[i].ingredient].qty else 0.0)
              && (r[i].sufficient <==> r[i].available + Eps >= r[i].required)
  {
    seq(|f|, i requires 0 <= i < |f| =>
      var req := Required(kilos, f[i].percentage);
      var avail := Available(stock, f[i].ingredient);
      Requirement(f[i].ingredient, f[i].percentage, req, avail, Sufficient(avail, req)))
  }

  /** "Check Requirements" for the product selected by name. It reads the
      state and changes nothing. */
  function CheckRequirements(st: State, name: string, kilos: real): (r: Result<seq<Requirement>>)
    ensures name == [] ==> r == Err(NoProductSelected)
    ensures name != [] && FindProduct(st, name).None? ==> r == Err(ProductNotFound)
    ensures r.Ok? <==> name != [] && FindProduct(st, name).Some?
    ensures r.Ok? ==> r.value == Requirements(st.stock, st.products[FindProduct(st, name).value].formula, kilos)
  {
    if name == [] then Err(NoProductSelected)
    else
      match FindProduct(st, name)
      case None => Err(ProductNotFound)
      case Some(pid) => Ok(Requirements(st.stock, st.products[pid].formula, kilos))
  }

  /** The insufficient lines, in table order: every short line is reported,
      and only short lines are. */
  function ShortRows(reqs: seq<Requirement>): (r: seq<Shortage>)
    ensures |r| <= |reqs|
    ensures r == [] <==> forall i :: 0 <= i < |reqs| ==> reqs[i].sufficient
    ensures forall i :: 0 <= i < |reqs| && !reqs[i].sufficient ==>
              Shortage(reqs[i].ingredient, reqs[i].required, reqs[i].available) in r
    ensures (forall i :: 0 <= i < |reqs| ==> (reqs[i].sufficient <==> reqs[i].available + Eps >= reqs[i].required)) ==>
              forall s :: s in r ==> s.available + Eps < s.required
    decreases |reqs|
  {
    if reqs == [] then []
    else
      var rest := ShortRows(reqs[1..]);
      if reqs[0].sufficient then rest
      else [Shortage(reqs[0].ingredient, reqs[0].required, reqs[0].available)] + rest
  }

  /** Only short lines are reported: every shortage is a line of the table
      whose flag is clear, with that line's ingredient, requirement and stock. */
  lemma {:induction false} ShortRowsOnlyShort(reqs: seq<Requirement>)
    ensures forall s :: s in ShortRows(reqs) ==>
              exists i :: 0 <= i < |reqs| && !reqs[i].sufficient
                          && s == Shortage(reqs[i].ingredient, reqs[i].required, reqs[i].available)
    decreases |reqs|
  {
    if reqs != [] {
      ShortRowsOnlyShort(reqs[1..]);
      forall s | s in ShortRows(reqs)
        ensures exists i :: 0 <= i < |reqs| && !reqs[i].sufficient
                            && s == Shortage(reqs[i].ingredient, reqs[i].required, reqs[i].available)
      {
        if !reqs[0].sufficient && s == Shortage(reqs[0].ingredient, reqs[0].required, reqs[0].available) {
        } else {
          assert s in ShortRows(reqs[1..]);
          var j :| 0 <= j < |reqs[1..]| && !reqs[1..][j].sufficient
                   && s == Shortage(reqs[1..][j].ingredient, reqs[1..][j].required, reqs[1..][j].available);
          assert reqs[1..][j] == reqs[j + 1];
        }
      }
    }
  }

  /** The record a confirmation appends, under the id sqlite hands out next. */
  function NewRecord(st: State, pid: nat, name: string, kilos: real, date: string, batch: string): Record {
    Record(NextProductionId(st.history), pid, name, kilos, Text.Strip(date), Text.Strip(batch))
  }

  /** "Confirm Production": re-checks every formula row against the stock
      before any debit. If some row is short nothing changes and every short
      row is reported; otherwise every row is debited and one record
      (product id, selected name, kilos, stripped date, stripped batch) is
      appended. A cancelled date or batch prompt is the empty string. */
  function Confirm(st: State, name: string, kilos: real, date: string, batch: string): (r: Result<State>)
    ensures name == [] ==> r == Err(NoProductSelected)
    ensures name != [] && FindProduct(st, name).None? ==> r == Err(ProductNotFound)
    ensures r.Ok? ==> name != [] && FindProduct(st, name).Some?
    ensures r.Ok? ==>
              var pid := FindProduct(st, name).value;
              var f := st.products[pid].formula;
              && (forall i :: 0 <= i < |f| ==>
                    Available(st.stock, f[i].ingredient) + Eps >= Required(kilos, f[i].percentage))
              && r.value.stock.Keys == st.stock.Keys
              && (forall n :: n in st.stock ==>
                    r.value.stock[n] == Ingredient(st.stock[n].qty - Total(f, n, kilos), st.stock[n].supplier))
              && r.value.history == st.history + [NewRecord(st, pid, name, kilos, date, batch)]
              && r.value.products == st.products
              && r.value.nextProductId == st.nextProductId
  {
    if name == [] then Err(NoProductSelected)
    else
      match FindProduct(st, name)
      case None => Err(ProductNotFound)
      case Some(pid) =>
        var f := st.products[pid].formula;
        var short := ShortRows(Requirements(st.stock, f, kilos));
        if short != [] then Err(InsufficientStock(short))
        else
          Ok(st.(stock := Debit(st.stock, f, kilos),
                 history := st.history + [NewRecord(st, pid, name, kilos, date, batch)]))
  }

  /** `SELECT ... FROM productions WHERE id=?`: the first record with that id. */
  function FindRecord(h: seq<Record>, id: nat): (r: Option<Record>)
    ensures r.Some? ==> r.value in h && r.value.id == id
    ensures r.Some? ==> exists i :: 0 <= i < |h| && h[i] == r.value
                          && forall j :: 0 <= j < i ==> h[j].id != id
    ensures r.None? <==> forall i :: 0 <= i < |h| ==> h[i].id != id
    decreases |h|
  {
    if h == [] then None
    else if h[0].id == id then Some(h[0])
    else FindRecord(h[1..], id)
  }

  /** `DELETE FROM productions WHERE id=?`: the history without the records
      carrying that id, the others kept in order. */
  function Remove(h: seq<Record>, id: nat): (r: seq<Record>)
    ensures |r| <= |h|
    ensures (forall i :: 0 <= i < |h| ==> h[i].id != id) ==> r == h
    decreases |h|
  {
    if h == [] then []
    else
      var rest := Remove(h[1..], id);
      if h[0].id == id then rest
      else [h[0]] + rest
  }

  /** Remove keeps exactly the records whose id differs. */
  lemma {:induction false} RemoveMembers(h: seq<Record>, id: nat)
    ensures forall x :: x in Remove(h, id) <==> x in h && x.id != id
    decreases |h|
  {
    if h != [] {
      RemoveMembers(h[1..], id);
      assert h == [h[0]] + h[1..];
    }
  }

  /** Putting a record in front of a history whose ids all exceed its own
      keeps ids increasing. */
  lemma ConsIncreasing(p: Record, h: seq<Record>)
    requires IdsIncreasing(h)
    requires forall k :: 0 <= k < |h| ==> p.id < h[k].id
    ensures IdsIncreasing([p] + h)
  {
    var r := [p] + h;
    forall i, j | 0 <= i < j < |r| ensures r[i].id < r[j].id {
      assert r[j] == h[j - 1];
      if i > 0 {
        assert r[i] == h[i - 1];
      }
    }
  }

  /** Removing records keeps a lower bound on the remaining ids. */
  lemma {:induction false} RemoveKeepsBound(h: seq<Record>, id: nat, lo: nat)
    requires forall k :: 0 <= k < |h| ==> lo < h[k].id
    ensures forall k :: 0 <= k < |Remove(h, id)| ==> lo < Remove(h, id)[k].id
    decreases |h|
  {
    if h != [] {
      assert forall k :: 0 <= k < |h[1..]| ==> h[1..][k] == h[k + 1];
      RemoveKeepsBound(h[1..], id, lo);
    }
  }

  /** The tail of a history with increasing ids has increasing ids, all
      above the head's. */
  lemma TailIncreasing(h: seq<Record>)
    requires IdsIncreasing(h) && h != []
    ensures IdsIncreasing(h[1..])
    ensures forall k :: 0 <= k < |h[1..]| ==> h[0].id < h[1..][k].id
  {
    var t := h[1..];
    forall i, j | 0 <= i < j < |t| ensures t[i].id < t[j].id {
      assert t[i] == h[i + 1] && t[j] == h[j + 1];
    }
    forall k | 0 <= k < |t| ensures h[0].id < t[k].id {
      assert t[k] == h[k + 1];
    }
  }

  /** Appending a record whose id exceeds every id in the history keeps ids
      increasing. */
  lemma ConsIncreasingEnd(h: seq<Record>, rec: Record)
    requires IdsIncreasing(h)
    requires forall i :: 0 <= i < |h| ==> h[i].id < rec.id
    ensures IdsIncreasing(h + [rec])
  {
    var r := h + [rec];
    forall i, j | 0 <= i < j < |r| ensures r[i].id < r[j].id {
      assert r[i] == h[i];
      if j < |h| {
        assert r[j] == h[j];
      }
    }
  }

  /** With increasing ids, removing keeps ids increasing, and removes exactly
      one record when the id is present. */
  lemma {:induction false} RemoveFromIncreasing(h: seq<Record>, id: nat)
    requires IdsIncreasing(h)
    ensures IdsIncreasing(Remove(h, id))
    ensures FindRecord(h, id).Some? ==> |Remove(h, id)| == |h| - 1
    decreases |h|
  {
    if h != [] {
      var t := h[1..];
      TailIncreasing(h);
      RemoveFromIncreasing(t, id);
      if h[0].id != id {
        RemoveKeepsBound(t, id, h[0].id);
        ConsIncreasing(h[0], Remove(t, id));
      } else {
        assert forall k :: 0 <= k < |t| ==> t[k].id != id;
      }
    }
  }

  /** "Delete Selected Production": an unknown id fails and changes nothing.
      Otherwise every row of the product's formula as it is now is credited
      `kilos * perc / 100` back (a deleted product has no rows, a deleted
      ingredient is skipped) and the record is removed. */
  function DeleteProduction(st: State, id: nat): (r: Result<State>)
    ensures r.Err? <==> forall i :: 0 <= i < |st.history| ==> st.history[i].id != id
    ensures r.Err? ==> r.error == ProductionNotFound
    ensures r.Ok? ==>
              var rec := FindRecord(st.history, id).value;
              var f := CurrentFormula(st.products, rec.productId);
              && r.value.stock.Keys == st.stock.Keys
              && (forall n :: n in st.stock ==>
                    r.value.stock[n] == Ingredient(st.stock[n].qty + Total(f, n, rec.kilos), st.stock[n].supplier))
              && (forall x :: x in r.value.history <==> x in st.history && x.id != id)
              && r.value.history == Remove(st.history, id)
              && r.value.products == st.products
              && r.value.nextProductId == st.nextProductId
  {
    match FindRecord(st.history, id)
    case None => Err(ProductionNotFound)
    case Some(rec) =>
      var f := CurrentFormula(st.products, rec.productId);
      RemoveMembers(st.history, id);
      Ok(st.(stock := Credit(st.stock, f, rec.kilos), history := Remove(st.history, id)))
  }

  /** Confirm agrees with Check Requirements on the same state: it succeeds
      exactly when every line of the table is sufficient, and otherwise fails
      with the full list of short lines. */
  lemma ConfirmMatchesCheck(st: State, name: string, kilos: real, date: string, batch: string)
    requires CheckRequirements(st, name, kilos).Ok?
    ensures var reqs := CheckRequirements(st, name, kilos).value;
            && (Confirm(st, name, kilos, date, batch).Ok? <==> forall i :: 0 <= i < |reqs| ==> reqs[i].sufficient)
            && (Confirm(st, name, kilos, date, batch).Err? ==>
                  Confirm(st, name, kilos, date, batch).error == InsufficientStock(ShortRows(reqs)))
  {
  }

  /** All or nothing: when one row is short, confirm fails whatever the other
      rows hold, and the failure names that row. */
  lemma ConfirmAllOrNothing(st: State, name: string, kilos: real, date: string, batch: string, i: nat)
    requires CheckRequirements(st, name, kilos).Ok?
    requires i < |CheckRequirements(st, name, kilos).value|
    requires !CheckRequirements(st, name, kilos).value[i].sufficient
    ensures Confirm(st, name, kilos, date, batch).Err?
    ensures var q := CheckRequirements(st, name, kilos).value[i];
            Confirm(st, name, kilos, date, batch).error.InsufficientStock?
            && Shortage(q.ingredient, q.required, q.available) in Confirm(st, name, kilos, date, batch).error.shortages
  {
    ConfirmMatchesCheck(st, name, kilos, date, batch);
  }

  /** The boundary of the sufficiency test: stock exactly equal to what a row
      requires (or more) is enough, and confirm then succeeds. */
  lemma ExactStockSuffices(st: State, name: string, kilos: real, date: string, batch: string)
    requires name != [] && FindProduct(st, name).Some?
    requires var f := st.products[FindProduct(st, name).value].formula;
             forall i :: 0 <= i < |f| ==> Available(st.stock, f[i].ingredient) >= Required(kilos, f[i].percentage)
    ensures Confirm(st, name, kilos, date, batch).Ok?
  {
    ConfirmMatchesCheck(st, name, kilos, date, batch);
  }

  /** Required amounts are linear in the kilos produced: scaling the kilos
      by `c` scales every line's requirement by `c`, row for row. */
  lemma RequirementsScale(stock: map<string, Ingredient>, f: Formula, kilos: real, c: real)
    ensures var a := Requirements(stock, f, kilos);
            var b := Requirements(stock, f, c * kilos);
            |a| == |b| && forall i :: 0 <= i < |a| ==> b[i].required == c * a[i].required && b[i].ingredient == a[i].ingredient
  {
    var a := Requirements(stock, f, kilos);
    var b := Requirements(stock, f, c * kilos);
    forall i | 0 <= i < |a|
      ensures b[i].required == c * a[i].required
    {
      assert b[i].required == (c * kilos) * (f[i].percentage / 100.0);
    }
  }

  /** Reported shortages keep table order: the short rows of a concatenated
      table are those of the first part followed by those of the second. */
  lemma {:induction false} ShortRowsAppend(a: seq<Requirement>, b: seq<Requirement>)
    ensures ShortRows(a + b) == ShortRows(a) + ShortRows(b)
    decreases |a|
  {
    if a != [] {
      assert (a + b)[1..] == a[1..] + b;
      ShortRowsAppend(a[1..], b);
    } else {
      assert a + b == b;
    }
  }

  /** A successful confirmation keeps the store valid. */
  lemma ConfirmPreservesValid(st: State, name: string, kilos: real, date: string, batch: string)
    requires Valid(st)
    requires Confirm(st, name, kilos, date, batch).Ok?
    ensures Valid(Confirm(st, name, kilos, date, batch).value)
  {
    var r := Confirm(st, name, kilos, date, batch).value;
    var rec := r.history[|r.history| - 1];
    assert forall i :: 0 <= i < |st.history| ==> st.history[i].id < rec.id;
    ConsIncreasingEnd(st.history, rec);
    assert ValidStock(r.stock);
  }

  /** Deleting a production keeps the store valid, and removes exactly one
      history record. */
  lemma DeleteProductionPreservesValid(st: State, id: nat)
    requires Valid(st)
    requires DeleteProduction(st, id).Ok?
    ensures Valid(DeleteProduction(st, id).value)
    ensures |DeleteProduction(st, id).value.history| == |st.history| - 1
  {
    var r := DeleteProduction(st, id).value;
    assert ValidStock(r.stock);
    RemoveFromIncreasing(st.history, id);
  }

  /** Round trip: deleting the record a confirmation just created restores
      the whole store: ingredients, products and history, and with them the
      id the next production gets. */
  lemma ConfirmThenDeleteRestores(st: State, name: string, kilos: real, date: string, batch: string)
    requires Confirm(st, name, kilos, date, batch).Ok?
    ensures DeleteProduction(Confirm(st, name, kilos, date, batch).value, NextProductionId(st.history)) == Ok(st)
  {
    var pid := FindProduct(st, name).value;
    var f := st.products[pid].formula;
    var rec := NewRecord(st, pid, name, kilos, date, batch);
    var s1 := st.(stock := Debit(st.stock, f, kilos), history := st.history + [rec]);
    assert Confirm(st, name, kilos, date, batch) == Ok(s1);
    assert forall i :: 0 <= i < |st.history| ==> st.history[i].id < rec.id;
    RecordFoundAtEnd(st.history, rec);
    RemoveLast(st.history, rec);
    CreditUndoesDebit(st.stock, f, kilos);
    assert CurrentFormula(s1.products, rec.productId) == f;
    assert DeleteProduction(s1, rec.id)
           == Ok(s1.(stock := Credit(s1.stock, f, kilos), history := Remove(s1.history, rec.id)));
  }

  /** A record whose id is above every id in the history is found after
      being appended. */
  lemma {:induction false} RecordFoundAtEnd(h: seq<Record>, rec: Record)
    requires forall i :: 0 <= i < |h| ==> h[i].id < rec.id
    ensures FindRecord(h + [rec], rec.id) == Some(rec)
    decreases |h|
  {
    if h == [] {
      assert [] + [rec] == [rec];
    } else {
      assert (h + [rec])[1..] == h[1..] + [rec];
      RecordFoundAtEnd(h[1..], rec);
    }
  }

  /** Removing the id of a record appended with a fresh id gives back the
      history before the append. */
  lemma {:induction false} RemoveLast(h: seq<Record>, rec: Record)
    requires forall i :: 0 <= i < |h| ==> h[i].id < rec.id
    ensures Remove(h + [rec], rec.id) == h
    decreases |h|
  {
    if h == [] {
      assert [] + [rec] == [rec];
      assert [rec][1..] == [];
    } else {
      var hr := h + [rec];
      assert hr[0] == h[0] && hr[0].id != rec.id;
      assert hr[1..] == h[1..] + [rec];
      RemoveLast(h[1..], rec);
      assert Remove(hr, rec.id) == [h[0]] + Remove(hr[1..], rec.id);
      assert h == [h[0]] + h[1..];
    }
  }

  /** Once its product is deleted, deleting a production credits nothing
      back: the stock stays as it is and only the record goes. */
  lemma DeleteProductionOfDeletedProduct(st: State, id: nat)
    requires DeleteProduction(st, id).Ok?
    requires FindRecord(st.history, id).value.productId !in st.products
    ensures DeleteProduction(st, id).value.stock == st.stock
  {
    var r := DeleteProduction(st, id).value;
    assert forall n :: n in r.stock ==> r.stock[n] == st.stock[n];
  }

  /** A record outlives its product, and sqlite gives the id of a deleted
      newest product to the next product saved. Deleting the record then
      credits the new product's formula for the recorded kilos. */
  lemma StaleRecordCreditsReusedId(st: State, id: nat, rec: Record, name: string, rows: seq<Row>, s2: State)
    requires Valid(st)
    requires FindRecord(st.history, id) == Some(rec)
    requires Products.NewestAfterPredecessor(st, rec.productId)
    requires |rows| <= MaxRows
    requires Products.SaveProduct(Products.DeleteProduct(st, rec.productId), None, name, rows) == Ok(s2)
    ensures DeleteProduction(s2, id).Ok?
    ensures forall n :: n in st.stock ==>
              DeleteProduction(s2, id).value.stock[n].qty
              == st.stock[n].qty + Total(Products.KeptRows(rows).value, n, rec.kilos)
  {
    Products.DeletedTopIdIsReused(st, rec.productId, name, rows);
    CreditsFormulaOfRecord(s2, st.stock, id, rec, Products.KeptRows(rows).value);
  }

  /** Deleting a found record credits the formula stored under its product id. */
  lemma CreditsFormulaOfRecord(s: State, stock: map<string, Ingredient>, id: nat, rec: Record, f: Formula)
    requires s.stock == stock
    requires FindRecord(s.history, id) == Some(rec)
    requires rec.productId in s.products && s.products[rec.productId].formula == f
    ensures DeleteProduction(s, id).Ok?
    ensures forall n :: n in stock ==> DeleteProduction(s, id).value.stock[n].qty == stock[n].qty + Total(f, n, rec.kilos)
  {
  }

  /** With pairwise different ingredient names in the formula, a successful
      confirmation leaves every ingredient either untouched or above -1e-9. */
  lemma ConfirmNeverOverdraws(st: State, name: string, kilos: real, date: string, batch: string, pid: nat)
    requires FindProduct(st, name) == Some(pid)
    requires DistinctIngredients(st.products[pid].formula)
    requires Confirm(st, name, kilos, date, batch).Ok?
    ensures var s1 := Confirm(st, name, kilos, date, batch).value;
            forall n :: n in s1.stock ==> s1.stock[n].qty == st.stock[n].qty || s1.stock[n].qty >= -Eps
  {
    var f := st.products[pid].formula;
    var s1 := Confirm(st, name, kilos, date, batch).value;
    forall n | n in s1.stock
      ensures s1.stock[n].qty == st.stock[n].qty || s1.stock[n].qty >= -Eps
    {
      TotalOfDistinct(f, n, kilos);
      if i :| 0 <= i < |f| && f[i].ingredient == n {
        assert Available(st.stock, n) + Eps >= Required(kilos, f[i].percentage);
      }
    }
  }

  /** Without distinct names the per-row test is not enough: a formula that
      lists Flour twice at 50% passes the check for 100 kg with 60 kg of
      Flour (each row needs 50 kg), and the confirmation leaves -40 kg. */
  lemma DuplicateRowsOverdraw()
    ensures var st := State(map["Flour" := Ingredient(60.0, "")],
                            map[1 := Product("Bread", [Row("Flour", 50.0), Row("Flour", 50.0)])],
                            [], 2);
            && Confirm(st, "Bread", 100.0, "", "").Ok?
            && Confirm(st, "Bread", 100.0, "", "").value.stock["Flour"].qty == -40.0
  {
    var st := State(map["Flour" := Ingredient(60.0, "")],
                    map[1 := Product("Bread", [Row("Flour", 50.0), Row("Flour", 50.0)])],
                    [], 2);
    var f := [Row("Flour", 50.0), Row("Flour", 50.0)];
    assert FindProductBelow(st.products, "Bread", 0) == None;
    assert FindProductBelow(st.products, "Bread", 1) == None;
    assert FindProduct(st, "Bread") == Some(1);
    ExactStockSuffices(st, "Bread", 100.0, "", "");
    assert f[1..] == [Row("Flour", 50.0)];
    assert f[1..][1..] == [];
    assert Total(f, "Flour", 100.0) == 100.0;
  }
}
