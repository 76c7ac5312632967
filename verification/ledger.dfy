/** The stock ledger: what a formula row requires, what the stock holds, and
    the row-by-row `UPDATE ingredients SET qty_kg = qty_kg -/+ ? WHERE name=?`
    statements that confirming and deleting a production issue. */
module Ledger {
  import opened Store

  /** Quantity on hand; an ingredient missing from stock counts as 0. */
  function Available(stock: map<string, Ingredient>, name: string): real {
    if name in stock then stock[name].qty else 0.0
  }

  /** `kilos * (perc / 100.0)`: kilos of an ingredient needed for `kilos` of product. */
  function Required(kilos: real, percentage: real): real {
    kilos * (percentage / 100.0)
  }

  /** A row is short exactly when `available + 1e-9 < required`. */
  predicate Sufficient(available: real, required: real) {
    !(available + Eps < required)
  }

  /** One `UPDATE ... SET qty_kg = qty_kg + delta WHERE name=?`: only that
      ingredient changes, and nothing happens when the name is not in stock. */
  function Adjust(stock: map<string, Ingredient>, name: string, delta: real): (r: map<string, Ingredient>)
    ensures r.Keys == stock.Keys
    ensures forall n :: n in r ==>
              r[n] == Ingredient(stock[n].qty + (if n == name then delta else 0.0), stock[n].supplier)
  {
    if name in stock then stock[name := stock[name].(qty := stock[name].qty + delta)] else stock
  }

  /** Two adjustments of one ingredient are one adjustment by their sum. */
  lemma AdjustAdds(stock: map<string, Ingredient>, name: string, a: real, b: real)
    ensures Adjust(Adjust(stock, name, a), name, b) == Adjust(stock, name, a + b)
  {
    var l := Adjust(Adjust(stock, name, a), name, b);
    var r := Adjust(stock, name, a + b);
    assert l.Keys == r.Keys;
    forall n | n in l ensures l[n] == r[n] {
    }
  }

  /** Sum of the required amounts of the formula rows naming `name`. */
  function Total(f: Formula, name: string, kilos: real): real {
    if f == [] then 0.0
    else (if f[0].ingredient == name then Required(kilos, f[0].percentage) else 0.0) + Total(f[1..], name, kilos)
  }

  /** Debits every formula row in order. Each ingredient in stock loses the
      total its rows require; names not in stock are skipped; suppliers and
      the set of ingredients are untouched. */
  function Debit(stock: map<string, Ingredient>, f: Formula, kilos: real): (r: map<string, Ingredient>)
    ensures r.Keys == stock.Keys
    ensures forall n :: n in r ==> r[n] == Ingredient(stock[n].qty - Total(f, n, kilos), stock[n].supplier)
    decreases |f|
  {
    if f == [] then stock
    else Debit(Adjust(stock, f[0].ingredient, -Required(kilos, f[0].percentage)), f[1..], kilos)
  }

  /** Credits every formula row in order: each ingredient in stock gains the
      total its rows require; names not in stock are skipped. */
  function Credit(stock: map<string, Ingredient>, f: Formula, kilos: real): (r: map<string, Ingredient>)
    ensures r.Keys == stock.Keys
    ensures forall n :: n in r ==> r[n] == Ingredient(stock[n].qty + Total(f, n, kilos), stock[n].supplier)
    decreases |f|
  {
    if f == [] then stock
    else Credit(Adjust(stock, f[0].ingredient, Required(kilos, f[0].percentage)), f[1..], kilos)
  }

  /** Crediting the same formula and kilos undoes a debit exactly. */
  lemma CreditUndoesDebit(stock: map<string, Ingredient>, f: Formula, kilos: real)
    ensures Credit(Debit(stock, f, kilos), f, kilos) == stock
  {
    var d := Debit(stock, f, kilos);
    var c := Credit(d, f, kilos);
    assert forall n :: n in c ==> c[n] == stock[n];
  }

  /** The amount a formula takes from an ingredient is linear in the kilos produced. */
  lemma {:induction false} TotalLinear(f: Formula, name: string, a: real, b: real, c: real)
    ensures Total(f, name, c * a + b) == c * Total(f, name, a) + Total(f, name, b)
    decreases |f|
  {
    if f != [] {
      TotalLinear(f[1..], name, a, b, c);
      var p := f[0].percentage;
      assert Required(c * a + b, p) == c * Required(a, p) + Required(b, p);
    }
  }

  /** Formula rows name pairwise different ingredients. */
  predicate DistinctIngredients(f: Formula) {
    forall i, j :: 0 <= i < j < |f| ==> f[i].ingredient != f[j].ingredient
  }

  /** With distinct names, the total an ingredient's rows require is the
      requirement of its one row, or 0 when no row names it. */
  lemma {:induction false} TotalOfDistinct(f: Formula, name: string, kilos: real)
    requires DistinctIngredients(f)
    ensures (forall i :: 0 <= i < |f| ==> f[i].ingredient != name) ==> Total(f, name, kilos) == 0.0
    ensures forall i :: 0 <= i < |f| && f[i].ingredient == name ==>
              Total(f, name, kilos) == Required(kilos, f[i].percentage)
    decreases |f|
  {
    if f != [] {
      assert DistinctIngredients(f[1..]) by {
        forall i, j | 0 <= i < j < |f[1..]|
          ensures f[1..][i].ingredient != f[1..][j].ingredient
        {
          assert f[1..][i] == f[i + 1] && f[1..][j] == f[j + 1];
        }
      }
      TotalOfDistinct(f[1..], name, kilos);
      forall i | 0 <= i < |f| && f[i].ingredient == name
        ensures Total(f, name, kilos) == Required(kilos, f[i].percentage)
      {
        if i == 0 {
          assert forall k :: 0 <= k < |f[1..]| ==> f[1..][k] == f[k + 1];
        } else {
          assert f[1..][i - 1] == f[i];
        }
      }
      if forall i :: 0 <= i < |f| ==> f[i].ingredient != name {
        assert forall k :: 0 <= k < |f[1..]| ==> f[1..][k] == f[k + 1];
      }
    }
  }
}
