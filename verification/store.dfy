/** The four sqlite tables of the application, as one immutable state value:
    `ingredients` is a map keyed by the exact ingredient name (the column is a
    plain `TEXT UNIQUE`, so uniqueness is case-sensitive), `products` and
    `product_ingredients` together are a map from product id to its name and
    formula, and `productions` is the history sequence in insertion order.
    Both id columns are `INTEGER PRIMARY KEY` without AUTOINCREMENT, so sqlite
    gives a new row one more than the largest id in use, or 1 in an empty
    table: the id of a deleted newest row is handed out again. */
module Store {
  import Text

  /** Number of ingredient rows the product editor offers. */
  const MaxRows: nat := 30

  /** Tolerance of the sufficiency test `available + 1e-9 < required`. */
  const Eps: real := 0.000000001

  datatype Option<T> = None | Some(value: T)

  datatype Ingredient = Ingredient(qty: real, supplier: string)

  /** One formula row: an ingredient name and its percentage of the product. */
  datatype Row = Row(ingredient: string, percentage: real)

  type Formula = seq<Row>

  datatype Product = Product(name: string, formula: Formula)

  /** One row of the `productions` table. */
  datatype Record = Record(
    id: nat,
    productId: nat,
    productName: string,
    kilos: real,
    producedAt: string,
    batch: string)

  /** `nextProductId` is the id the next inserted product gets; in a valid
      state it is the largest product id plus one, or 1 when there is none.
      The next production id is computed from the history itself. */
  datatype State = State(
    stock: map<string, Ingredient>,
    products: map<nat, Product>,
    history: seq<Record>,
    nextProductId: nat)

  /** An ingredient row that cannot be covered: what it needs and what is on hand. */
  datatype Shortage = Shortage(ingredient: string, required: real, available: real)

  /** The failures the application reports in a message box (or, for a product
      rename onto an existing name, by an uncaught integrity error that leaves
      the database uncommitted). */
  datatype Error =
    | NameRequired
    | DuplicateIngredient
    | NegativeRestock
    | ProductNameRequired
    | PercentageNotPositive(ingredient: string)
    | NoIngredients
    | DuplicateProduct
    | NoProductSelected
    | ProductNotFound
    | InsufficientStock(shortages: seq<Shortage>)
    | ProductionNotFound

  datatype Result<T> = Ok(value: T) | Err(error: Error)

  /** A name as the dialogs store it: stripped and not empty. */
  predicate IsName(s: string) {
    s != [] && Text.Stripped(s)
  }

  /** What the product editor lets through: 1 to MaxRows named rows, each with
      a positive percentage (the percentages need not add up to 100). */
  predicate ValidFormula(f: Formula) {
    && 1 <= |f| <= MaxRows
    && forall i :: 0 <= i < |f| ==> IsName(f[i].ingredient) && f[i].percentage > 0.0
  }

  /** Ingredient names and suppliers are stored as the dialog strips them. */
  predicate ValidStock(stock: map<string, Ingredient>) {
    forall n :: n in stock ==> IsName(n) && Text.Stripped(stock[n].supplier)
  }

  /** Product ids are below the next id, which is the largest id plus one (1
      when there is none); names are stored stripped and are unique, and
      every formula is one the editor accepts. */
  predicate ValidProducts(products: map<nat, Product>, next: nat) {
    && 1 <= next
    && (next == 1 || next - 1 in products)
    && (forall id :: id in products ==>
          id < next && IsName(products[id].name) && ValidFormula(products[id].formula))
    && UniqueNames(products)
  }

  /** No two products carry the same name (`name TEXT UNIQUE`). */
  predicate UniqueNames(products: map<nat, Product>) {
    forall a, b :: a in products && b in products && products[a].name == products[b].name ==> a == b
  }

  /** Deleting a product keeps names unique. */
  lemma UniqueNamesRemove(products: map<nat, Product>, pid: nat)
    requires UniqueNames(products)
    ensures UniqueNames(products - {pid})
  {
  }

  /** Storing a product under `id` keeps names unique when no other product
      carries its name. */
  lemma UniqueNamesPut(products: map<nat, Product>, id: nat, p: Product)
    requires UniqueNames(products)
    requires forall k :: k in products && k != id ==> products[k].name != p.name
    ensures UniqueNames(products[id := p])
  {
    var m := products[id := p];
    forall a, b | a in m && b in m && m[a].name == m[b].name ensures a == b {
      if a != id && b != id {
        assert m[a] == products[a] && m[b] == products[b];
      }
    }
  }

  /** Storing one product keeps the catalogue valid when the product is one
      the editor accepts, its name is free and its id is below the new next
      id, which is the largest id plus one. */
  lemma ValidProductsPut(products: map<nat, Product>, next: nat, id: nat, p: Product, next2: nat)
    requires ValidProducts(products, next)
    requires IsName(p.name) && ValidFormula(p.formula)
    requires forall k :: k in products && k != id ==> products[k].name != p.name
    requires id < next2 && next <= next2 && (next2 == next || next2 == id + 1)
    ensures ValidProducts(products[id := p], next2)
  {
    var m := products[id := p];
    forall k | k in m ensures k < next2 && IsName(m[k].name) && ValidFormula(m[k].formula) {
      if k != id {
        assert m[k] == products[k];
      }
    }
    UniqueNamesPut(products, id, p);
  }

  /** Deleting one product keeps the catalogue valid when the new next id is
      above every remaining id and is the largest one plus one (or 1). */
  lemma ValidProductsRemove(products: map<nat, Product>, next: nat, pid: nat, next2: nat)
    requires ValidProducts(products, next)
    requires 1 <= next2 && (next2 == 1 || next2 - 1 in products - {pid})
    requires forall k :: k in products && k != pid ==> k < next2
    ensures ValidProducts(products - {pid}, next2)
  {
    var m := products - {pid};
    forall k | k in m ensures k < next2 && IsName(m[k].name) && ValidFormula(m[k].formula) {
      assert m[k] == products[k];
    }
    UniqueNamesRemove(products, pid);
  }

  /** Production ids increase along the history, so no id occurs twice. */
  predicate IdsIncreasing(h: seq<Record>) {
    forall i, j :: 0 <= i < j < |h| ==> h[i].id < h[j].id
  }

  /** The invariant every operation of the application preserves. */
  predicate Valid(st: State) {
    && ValidStock(st.stock)
    && ValidProducts(st.products, st.nextProductId)
    && IdsIncreasing(st.history)
  }

  /** A freshly created database: sqlite hands out row ids from 1. */
  function Empty(): (st: State)
    ensures Valid(st)
    ensures st.stock == map[] && st.products == map[] && st.history == []
  {
    State(map[], map[], [], 1)
  }

  /** One more than the largest product id below `bound`, or 0 when no
      product has an id below `bound`. */
  function TopBelow(products: map<nat, Product>, bound: nat): (r: nat)
    ensures r <= bound
    ensures r > 0 ==> r - 1 in products
    ensures forall id :: r <= id < bound ==> id !in products
    decreases bound
  {
    if bound == 0 then 0
    else if bound - 1 in products then bound
    else TopBelow(products, bound - 1)
  }

  /** The id sqlite gives the next product once the products below `bound`
      are all that is left: the largest id plus one, or 1 in an empty table. */
  function NextProductIdBelow(products: map<nat, Product>, bound: nat): (r: nat)
    ensures 1 <= r
    ensures forall id :: id in products && id < bound ==> id < r
    ensures r == 1 || (r - 1 in products && r <= bound)
  {
    var top := TopBelow(products, bound);
    if top == 0 then 1 else top
  }

  /** The id sqlite gives the next production record: the largest id in the
      history plus one, or 1 when the history is empty. */
  function NextProductionId(h: seq<Record>): (r: nat)
    ensures 1 <= r
    ensures forall i :: 0 <= i < |h| ==> h[i].id < r
    ensures r == 1 || exists i :: 0 <= i < |h| && h[i].id + 1 == r
    decreases |h|
  {
    if h == [] then 1
    else
      var front := NextProductionId(h[..|h| - 1]);
      var last := h[|h| - 1].id + 1;
      if front < last then last else front
  }

  /** `SELECT id FROM products WHERE name=?` restricted to ids below `bound`:
      the smallest such id, or None when no product below `bound` has that name. */
  function FindProductBelow(products: map<nat, Product>, name: string, bound: nat): (r: Option<nat>)
    ensures r.Some? ==> r.value < bound && r.value in products && products[r.value].name == name
    ensures r.Some? ==> forall id :: id < r.value && id in products ==> products[id].name != name
    ensures r.None? ==> forall id :: id < bound && id in products ==> products[id].name != name
    decreases bound
  {
    if bound == 0 then None
    else
      match FindProductBelow(products, name, bound - 1)
      case Some(id) => Some(id)
      case None =>
        if bound - 1 in products && products[bound - 1].name == name then Some(bound - 1) else None
  }

  /** The product the production page selects by name. */
  function FindProduct(st: State, name: string): Option<nat> {
    FindProductBelow(st.products, name, st.nextProductId)
  }

  /** In a valid state the lookup by name finds exactly the product carrying
      that name, and reports None exactly when no product carries it. */
  lemma FindProductExact(st: State, name: string, pid: nat)
    requires Valid(st)
    ensures FindProduct(st, name) == Some(pid) <==> pid in st.products && st.products[pid].name == name
    ensures FindProduct(st, name).None? <==> forall id :: id in st.products ==> st.products[id].name != name
  {
  }

  /** The formula rows stored for a product id; none once the product is deleted. */
  function CurrentFormula(products: map<nat, Product>, pid: nat): Formula {
    if pid in products then products[pid].formula else []
  }
}
