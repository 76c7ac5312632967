/** The stock page: add, edit, restock and delete an ingredient, with the
    validation the ingredient dialog applies before any of them. */
module Stock {
  import Text
  import opened Store
  import opened Ledger

  /** Adds a new ingredient under the stripped name with the stripped supplier.
      The quantity is stored as typed; the dialog does not reject negative values. */
  function AddIngredient(st: State, name: string, qty: real, supplier: string): (r: Result<State>)
    ensures Text.Strip(name) == [] ==> r == Err(NameRequired)
    ensures Text.Strip(name) != [] && Text.Strip(name) in st.stock ==> r == Err(DuplicateIngredient)
    ensures r.Ok? <==> Text.Strip(name) != [] && Text.Strip(name) !in st.stock
    ensures r.Ok? ==>
              && r.value.stock.Keys == st.stock.Keys + {Text.Strip(name)}
              && r.value.stock[Text.Strip(name)] == Ingredient(qty, Text.Strip(supplier))
              && (forall n :: n in st.stock ==> r.value.stock[n] == st.stock[n])
              && r.value.(stock := st.stock) == st
  {
    var n := Text.Strip(name);
    if n == [] then Err(NameRequired)
    else if n in st.stock then Err(DuplicateIngredient)
    else Ok(st.(stock := st.stock[n := Ingredient(qty, Text.Strip(supplier))]))
  }

  /** Sets quantity and supplier of the ingredient with exactly this name. The
      update matches no row, and so changes nothing, when the name is not in stock. */
  function EditIngredient(st: State, name: string, qty: real, supplier: string): (r: Result<State>)
    ensures r.Err? <==> Text.Strip(name) == []
    ensures r.Err? ==> r.error == NameRequired
    ensures r.Ok? ==>
              && r.value.stock.Keys == st.stock.Keys
              && (name in st.stock ==> r.value.stock[name] == Ingredient(qty, Text.Strip(supplier)))
              && (forall n :: n in st.stock && n != name ==> r.value.stock[n] == st.stock[n])
              && r.value.(stock := st.stock) == st
  {
    if Text.Strip(name) == [] then Err(NameRequired)
    else if name in st.stock then Ok(st.(stock := st.stock[name := Ingredient(qty, Text.Strip(supplier))]))
    else Ok(st)
  }

  /** Adds a non-negative amount to one ingredient; the amount dialog refuses
      negative input, and an absent name is a silent no-op. */
  function RestockIngredient(st: State, name: string, amount: real): (r: Result<State>)
    ensures r.Err? <==> amount < 0.0
    ensures r.Err? ==> r.error == NegativeRestock
    ensures r.Ok? ==>
              && r.value.stock.Keys == st.stock.Keys
              && (name in st.stock ==>
                    r.value.stock[name] == st.stock[name].(qty := st.stock[name].qty + amount))
              && (forall n :: n in st.stock && n != name ==> r.value.stock[n] == st.stock[n])
              && r.value.(stock := st.stock) == st
  {
    if amount < 0.0 then Err(NegativeRestock)
    else Ok(st.(stock := Adjust(st.stock, name, amount)))
  }

  /** Removes exactly this name from stock. Formulas that mention the
      ingredient are left as they are. */
  function DeleteIngredient(st: State, name: string): (r: State)
    ensures r.stock.Keys == st.stock.Keys - {name}
    ensures forall n :: n in r.stock ==> r.stock[n] == st.stock[n]
    ensures r.(stock := st.stock) == st
  {
    st.(stock := st.stock - {name})
  }

  /** Every ingredient operation keeps the store valid: names and suppliers
      stay stripped and names stay non-empty. */
  lemma StockOperationsPreserveValid(st: State, name: string, qty: real, supplier: string, amount: real)
    requires Valid(st)
    ensures AddIngredient(st, name, qty, supplier).Ok? ==> Valid(AddIngredient(st, name, qty, supplier).value)
    ensures EditIngredient(st, name, qty, supplier).Ok? ==> Valid(EditIngredient(st, name, qty, supplier).value)
    ensures RestockIngredient(st, name, amount).Ok? ==> Valid(RestockIngredient(st, name, amount).value)
    ensures Valid(DeleteIngredient(st, name))
  {
    Text.StripSpec(name);
    Text.StripSpec(supplier);
  }

  /** A second add under the same (stripped) name fails, whatever the first
      one stored. */
  lemma AddTwiceFails(st: State, name: string, q1: real, s1: string, q2: real, s2: string)
    requires AddIngredient(st, name, q1, s1).Ok?
    ensures AddIngredient(AddIngredient(st, name, q1, s1).value, name, q2, s2) == Err(DuplicateIngredient)
  {
  }

  /** Deleting the ingredient just added gives back the state before the add. */
  lemma DeleteUndoesAdd(st: State, name: string, qty: real, supplier: string)
    requires AddIngredient(st, name, qty, supplier).Ok?
    ensures DeleteIngredient(AddIngredient(st, name, qty, supplier).value, Text.Strip(name)) == st
  {
    var r := DeleteIngredient(AddIngredient(st, name, qty, supplier).value, Text.Strip(name));
    assert r.stock == st.stock;
  }

  /** Editing an ingredient back to its stored quantity and supplier restores
      the state: edit changes nothing but those two fields. Names and
      suppliers in a valid stock are stripped, as required here. */
  lemma {:induction false} EditBackRestores(st: State, name: string, qty: real, supplier: string)
    requires name in st.stock
    requires IsName(name) && Text.Stripped(st.stock[name].supplier)
    ensures var s1 := EditIngredient(st, name, qty, supplier).value;
            EditIngredient(s1, name, st.stock[name].qty, st.stock[name].supplier) == Ok(st)
  {
    var stored := st.stock[name];
    Text.StrippedIsFixed(name);
    Text.StrippedIsFixed(stored.supplier);
    var s1 := st.(stock := st.stock[name := Ingredient(qty, Text.Strip(supplier))]);
    assert EditIngredient(st, name, qty, supplier) == Ok(s1);
    var s2 := s1.(stock := s1.stock[name := stored]);
    assert EditIngredient(s1, name, stored.qty, stored.supplier) == Ok(s2);
    assert s2.stock.Keys == st.stock.Keys;
    assert forall n :: n in s2.stock ==> s2.stock[n] == st.stock[n];
    assert s2.stock == st.stock;
    assert s2 == st;
  }

  /** Restocking `a` and then `b` is restocking `a + b` at once. */
  lemma RestockAdds(st: State, name: string, a: real, b: real)
    requires a >= 0.0 && b >= 0.0
    ensures var s1 := RestockIngredient(st, name, a).value;
            RestockIngredient(s1, name, b) == RestockIngredient(st, name, a + b)
  {
    AdjustAdds(st.stock, name, a, b);
  }
}
