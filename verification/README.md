# Raw materials manager: inventory and production core

This project models the bookkeeping of a small desktop application for a food
or chemicals workshop. The application keeps a stock of raw ingredients in
kilograms and a catalogue of products. Each product has a formula: rows of
ingredient name and percentage. It also keeps a history of production runs.
Producing `k` kilos of a product takes `k * perc / 100` kilos of every
formula row from stock. Deleting a production record gives the same amounts
back, as computed from the product's formula at the time of deletion.

The four sqlite tables become one immutable `Store.State`:

- `stock` is a map from the exact ingredient name to its quantity and
  supplier. The `name` column is a plain `TEXT UNIQUE`, so names are
  case-sensitive.
- `products` maps a product id to its name and formula (`products` joined
  with `product_ingredients`).
- `history` is the `productions` table in insertion order, one `Store.Record` per row.
- `nextProductId` is the id the next product gets. Both id columns are
  `INTEGER PRIMARY KEY` without AUTOINCREMENT, so sqlite gives a new row the
  largest id in use plus one, or 1 in an empty table. The id of a deleted
  newest row is therefore handed out again. The model follows this: deleting
  the newest product lowers `nextProductId`, and the next production id is
  computed from the history (`Store.NextProductionId`).

Every operation is a pure function of the state. Those that change the
state and can fail return a `Result<State>`. Deleting an ingredient or a
product cannot fail and returns the new `State`. Check Requirements returns
a `Result` holding the requirements table and leaves the state alone. The
message boxes that reject a name, a percentage, a duplicate, a missing
product or record, or a shortage become `Error` values, and an error carries
no new state. A "Please select …" box for an empty selection on the stock or
products page or in the history (lines 227, 252, 268, 411, 429, 748) means
the operation is not called at all, and so does the "Unable to determine
production id" box (line 756). The production page's empty product selection
is modelled, as `NoProductSelected`.

Modules:

- `Text`: Python's `str.strip()`, with the full `str.isspace()` character set.
- `Store`: the tables, the constants `MaxRows = 30` and `Eps = 1e-9`, the
  store invariant `Valid`, and the lookup of a product by name.
- `Ledger`: requirement, availability, the sufficiency test, and the
  row-by-row debit and credit `UPDATE`s.
- `Stock`: adding, editing, restocking and deleting an ingredient, with the
  ingredient dialog's validation.
- `Products`: saving a product from the editor, and deleting a product.
- `Production`: checking requirements, confirming a production, and
  deleting a production record.

User input enters as parameters. A name, quantity or kilos value typed in a
dialog, or the selection in a list, is an argument of the operation that
uses it. A cancelled date or batch prompt is the empty string.

## Model

| member | source | states |
|---|---|---|
| Text.StripSpec | src/raw_materials_manager.py:327 | The stripped text has no whitespace at either end. It is no longer than the input. It is empty exactly when the input is all whitespace, the case the dialogs reject as a missing name. |
| Text.StripIsInfix | src/raw_materials_manager.py:333 | Stripping removes whitespace only, and only at the two ends: the result is a contiguous piece of the input flanked by whitespace. |
| Text.StrippedIsFixed | src/raw_materials_manager.py:508 | Text without surrounding whitespace is returned unchanged, so names that are already stored compare equal to what the dialogs produce from them. |
| Text.StripIdempotent | src/raw_materials_manager.py:515 | Stripping twice gives the same result as stripping once. |
| Text.TrimStartSpec | src/raw_materials_manager.py:327 | Removing leading whitespace keeps a suffix of the input, drops only whitespace characters, and leaves no leading whitespace. |
| Text.TrimEndSpec | src/raw_materials_manager.py:327 | Removing trailing whitespace keeps a prefix of the input, drops only whitespace characters, and leaves no trailing whitespace. |
| Store.Empty | src/raw_materials_manager.py:24-84 | A freshly created database has no ingredients, products or productions, and it satisfies the store invariant. |
| Store.FindProductBelow | src/raw_materials_manager.py:645-651 | A product lookup by name returns an existing id carrying exactly that name, and no smaller id carries it. It returns None only when no product below the bound has that name. |
| Store.TopBelow | src/raw_materials_manager.py:47-50 | One more than the largest product id below the bound, or 0 when there is none: every id from the result up to the bound is free, and the id just below the result is in use. |
| Store.NextProductIdBelow | src/raw_materials_manager.py:47-50 | The id sqlite gives the next product: above every remaining id, and either 1 or one more than an id in use. |
| Store.NextProductionId | src/raw_materials_manager.py:67-75 | The id sqlite gives the next production record: at least 1, above every id in the history, and either 1 or one more than an id in the history. |
| Store.FindProductExact | src/raw_materials_manager.py:690-696 | Product names are unique, so in a valid store the lookup returns a given id exactly when that product has the name. It returns None exactly when no product has it. |
| Ledger.Adjust | src/raw_materials_manager.py:261 | An `UPDATE qty_kg = qty_kg + delta WHERE name=?` changes only that ingredient's quantity. It keeps every supplier and the set of ingredients, and it is a no-op for a name that is not in stock. |
| Ledger.AdjustAdds | src/raw_materials_manager.py:261 | Two adjustments of the same ingredient equal one adjustment by their sum. |
| Ledger.Debit | src/raw_materials_manager.py:725-727 | Debiting a formula row by row takes from each stocked ingredient the total that the rows naming it require. Names not in stock are skipped. Suppliers and the set of ingredients do not change. |
| Ledger.Credit | src/raw_materials_manager.py:782-784 | Crediting a formula row by row gives each stocked ingredient the total that its rows require. Names not in stock are skipped. |
| Ledger.CreditUndoesDebit | src/raw_materials_manager.py:725-784 | Crediting the same formula and kilos restores the stock exactly as it was before the debit. |
| Ledger.TotalLinear | src/raw_materials_manager.py:726 | The amount a formula takes from one ingredient is linear in the kilos produced. |
| Ledger.TotalOfDistinct | src/raw_materials_manager.py:725-727 | When the formula's ingredient names are distinct, the amount taken from an ingredient is the requirement of its single row, or 0 if no row names it. |
| Stock.AddIngredient | src/raw_materials_manager.py:209-222 | Adding fails with NameRequired exactly when the stripped name is empty. It fails with DuplicateIngredient exactly when the stripped name is already in stock. Otherwise it stores the typed quantity and the stripped supplier under the stripped name, and every other entry and table is unchanged. |
| Stock.EditIngredient | src/raw_materials_manager.py:224-247 | Editing fails only when the name is blank. Otherwise the ingredient with exactly that name gets the new quantity and the stripped supplier. Every other entry is unchanged, and an unknown name changes nothing. |
| Stock.RestockIngredient | src/raw_materials_manager.py:249-264 | Restocking rejects a negative amount. Otherwise it adds the amount to exactly the named ingredient and changes nothing else, including when the name is absent. |
| Stock.DeleteIngredient | src/raw_materials_manager.py:266-279 | Deleting removes exactly that name from stock and keeps every other entry. Products and history are untouched. |
| Stock.StockOperationsPreserveValid | src/raw_materials_manager.py:326-338 | Because the dialog strips its input and insists on a name, all four ingredient operations keep the stock invariant: names are non-empty and stripped, and suppliers are stripped. |
| Stock.AddTwiceFails | src/raw_materials_manager.py:216-220 | A second add under the same stripped name fails as a duplicate, whatever the first add stored. |
| Stock.DeleteUndoesAdd | src/raw_materials_manager.py:209-279 | Deleting the ingredient that was just added restores the previous state exactly. |
| Stock.EditBackRestores | src/raw_materials_manager.py:224-247 | Editing an ingredient back to its stored quantity and supplier restores the state, so an edit changes nothing but those two fields. |
| Stock.RestockAdds | src/raw_materials_manager.py:249-264 | Restocking by `a` and then by `b` gives the same state as restocking once by `a + b`. |
| Products.Normalize | src/raw_materials_manager.py:514-526 | The kept rows are no more than the editor rows, and each kept row has a stripped, non-empty ingredient name. Every non-blank editor row appears among them with its stripped name and its percentage. |
| Products.NormalizeOnlyFilled | src/raw_materials_manager.py:514-526 | Only non-blank editor rows are kept: every kept row is the stripped form of one of them, with its percentage. |
| Products.NormalizeAppend | src/raw_materials_manager.py:514-526 | Kept rows stay in editor order: the rows kept from two consecutive parts of the editor are those of the first part followed by those of the second. |
| Products.KeptRows | src/raw_materials_manager.py:514-526 | The editor's row loop succeeds exactly when every non-blank row has a percentage above zero. It then keeps the normalized rows, all with positive percentages. Otherwise it reports PercentageNotPositive with the stripped name of the first non-blank row, in editor order, whose percentage is not above zero. |
| Products.SaveProduct | src/raw_materials_manager.py:507-552 | Save fails with a distinct error for each check, in the editor's order: ProductNameRequired for a blank name, the row loop's PercentageNotPositive, NoIngredients for zero filled rows, DuplicateProduct when the stripped name belongs to another product, and ProductNotFound when an edited product is gone. Otherwise a new product is stored under a fresh id, or an edited product gets its name and whole formula replaced. Stock, history and all other products are unchanged. |
| Products.SavePreservesValid | src/raw_materials_manager.py:528-548 | A successful save keeps the store invariant. The next product id stays the largest id in use plus one, names stay unique and stripped, and every formula has 1 to 30 named rows with positive percentages. |
| Products.DeleteProduct | src/raw_materials_manager.py:426-440 | Deleting a product removes exactly that id with its formula and keeps all other products. Stock and production history are untouched. |
| Products.DeleteProductPreservesValid | src/raw_materials_manager.py:426-440 | Deleting a product keeps the store invariant, including that the next product id is the largest id in use plus one. |
| Products.DeleteProductNextId | src/raw_materials_manager.py:536-537 | Deleting any product but the newest leaves the next id as it is. Deleting the newest lowers it to at most the deleted id (or 1), and to exactly the deleted id when the id below it is in use. |
| Products.DeletedTopIdIsReused | src/raw_materials_manager.py:536-537 | Ids are reused: after the newest product is deleted, the next product saved gets the deleted id (when the id below it is in use), and it carries the new name and kept rows. |
| Products.BlankRowsIgnored | src/raw_materials_manager.py:514-516 | Blank editor rows after the filled ones change nothing, so a form of 30 rows saves like its filled prefix. |
| Products.SaveNewIsFound | src/raw_materials_manager.py:532-537 | A newly saved product is what the production page then finds under its stripped name, and its formula is the kept rows. |
| Products.SaveNewTwiceFails | src/raw_materials_manager.py:532-540 | A second new product under a name already in use fails with DuplicateProduct. |
| Products.DeleteUndoesSaveNew | src/raw_materials_manager.py:426-440 | Deleting the product that was just added restores the previous state exactly, the next product id included. |
| Products.PercentagesNeedNotSumTo100 | src/raw_materials_manager.py:513-527 | The editor accepts percentages that do not add up to 100. Two rows at 60% are both kept. |
| Production.Requirements | src/raw_materials_manager.py:663-671 | The requirements table has one line per formula row, in formula order. Each line holds the row's `kilos * perc / 100` (`Ledger.Required`), the stock on hand with 0 for an unknown ingredient (`Ledger.Available`), and a flag (`Ledger.Sufficient`). The flag is set exactly when `available + 1e-9 >= required`. |
| Production.CheckRequirements | src/raw_materials_manager.py:632-675 | Checking fails with NoProductSelected for an empty selection and with ProductNotFound for an unknown name. Otherwise it yields the requirements table of the selected product's formula. |
| Production.ShortRows | src/raw_materials_manager.py:700-714 | The shortage list is empty exactly when every line is sufficient. Every short line is reported with its requirement and availability, and when the flags are consistent, every reported line is short. |
| Production.ShortRowsOnlyShort | src/raw_materials_manager.py:700-707 | Only short lines are reported: every shortage is a line of the table whose flag is clear, with that line's ingredient, requirement and stock. |
| Production.ShortRowsAppend | src/raw_materials_manager.py:701-707 | Shortages are reported in formula order: the shortages of a table that is split in two are those of the first part followed by those of the second. |
| Production.Confirm | src/raw_materials_manager.py:677-743 | Confirming succeeds only when every formula row is covered within 1e-9. It then debits each ingredient by the total its rows require and appends one record (`Production.NewRecord`). The record holds the next production id (the largest id plus one), the product id, the selected name, the kilos, and the stripped date and batch. Products are unchanged. |
| Production.ConfirmMatchesCheck | src/raw_materials_manager.py:663-714 | Confirming succeeds exactly when every line of the Check Requirements table is sufficient. Otherwise it fails with exactly that table's short lines. |
| Production.ConfirmAllOrNothing | src/raw_materials_manager.py:700-714 | If a single row is short, confirming fails whatever the other rows hold. The failure names that row, and the stock is not debited. |
| Production.ExactStockSuffices | src/raw_materials_manager.py:706 | Stock that equals or exceeds every row's requirement is enough, and confirming then succeeds. |
| Production.RequirementsScale | src/raw_materials_manager.py:664 | Scaling the kilos by `c` scales every line's requirement by `c`, row for row. |
| Production.ConfirmPreservesValid | src/raw_materials_manager.py:725-732 | A successful confirmation keeps the store invariant, so production ids keep increasing along the history. |
| Production.ConfirmNeverOverdraws | src/raw_materials_manager.py:700-727 | When the formula names each ingredient at most once, a confirmation leaves each ingredient untouched or at no less than -1e-9. |
| Production.DuplicateRowsOverdraw | src/raw_materials_manager.py:700-727 | Rows are checked one by one, so a formula listing Flour twice at 50% passes for 100 kg with only 60 kg in stock. The confirmation then leaves -40 kg. |
| Production.FindRecord | src/raw_materials_manager.py:762-767 | Looking up a production id yields the first record of the history carrying that id. It yields None exactly when no record carries it. |
| Production.Remove | src/raw_materials_manager.py:787 | Deleting by id never lengthens the history and leaves it as it is when no record has that id. |
| Production.RemoveMembers | src/raw_materials_manager.py:787 | Deleting by id keeps exactly the records whose id differs. |
| Production.RemoveFromIncreasing | src/raw_materials_manager.py:787 | With increasing ids, deleting by id keeps the ids increasing, and it removes exactly one record when the id is present. |
| Production.DeleteProduction | src/raw_materials_manager.py:745-797 | Deleting fails with ProductionNotFound exactly when no record has the id. Otherwise it credits back the formula stored now under the record's product id (`Store.CurrentFormula`: nothing when no product has that id) for the recorded kilos, and it drops exactly that record. Products and the next product id are unchanged. |
| Production.DeleteProductionPreservesValid | src/raw_materials_manager.py:778-787 | Deleting a production keeps the store invariant and shortens the history by exactly one record. |
| Production.DeleteProductionOfDeletedProduct | src/raw_materials_manager.py:778-784 | While no product holds the record's product id, deleting the record gives nothing back to stock. Once the id is handed to a newer product, `Production.StaleRecordCreditsReusedId` applies instead. |
| Production.StaleRecordCreditsReusedId | src/raw_materials_manager.py:778-784 | A record outlives its product. When the deleted product was the newest, the next product saved gets its id, and deleting the record then credits that new product's formula for the recorded kilos. |
| Production.RecordFoundAtEnd | src/raw_materials_manager.py:762-763 | A record appended with an id above all others is found by that id. |
| Production.RemoveLast | src/raw_materials_manager.py:787 | Deleting a record that was appended with a fresh id restores the earlier history. |
| Production.ConfirmThenDeleteRestores | src/raw_materials_manager.py:677-797 | Deleting the record that a confirmation just created restores the whole store exactly: ingredients, products and history, and with the history the id the next production gets. |

## Left out

- The Tk user interface: tree views, the autocompleting combobox, message boxes, confirmation prompts (a "No" is the caller not calling the operation), refreshing, sorting, and the 6-digit rounding of displayed values (the edit dialog's pre-filled quantity is the one place where the rounding reaches the database; see `Stock.EditIngredient` below).
- Backup of the database file, `init_db`'s schema migration, and connection handling. These are file and database I/O; the model starts from `Store.Empty`.
- Floating point: quantities and percentages are exact reals. The debit-then-credit round trip is exact in the model, but in binary floats it can leave a rounding residue.
- Parsing of typed numbers: the operations take numbers, so a value that `float()` rejects is not modelled. In the application those parse failures happen inside the handlers. The ingredient dialog parses the quantity before it checks the name (lines 327-334), so a blank name with a bad quantity reports the quantity. The editor parses each non-blank row's percentage in the same loop as the `perc <= 0` test (lines 514-524), so whichever of the two failures comes first in editor order is reported. Check and Confirm parse the kilos after the selection check and before the product lookup (lines 634-641, 678-686).
- Stock.EditIngredient, Stock.RestockIngredient and Stock.DeleteIngredient take the name as the exact stored string. In the application the ingredient list hands back any name that Python's `int()` accepts as that integer (`007` comes back as 7). Sqlite applies the name column's TEXT affinity to the bound value, so the statement compares against `'7'`. It then edits, restocks or deletes the ingredient named `7` if there is one, and otherwise nothing.
- Stock.EditIngredient takes the quantity the dialog returns. The dialog opens pre-filled with the stored quantity rounded to 6 decimals (src/raw_materials_manager.py:238 and :306). An edit that changes only the supplier therefore writes the rounded quantity back; in the model that is an edit whose `qty` argument is the rounded value.
- Row ids beyond sqlite's 64-bit limit: at the maximum rowid sqlite would pick a random unused id; the model keeps counting.
- Transactions and concurrent access: each operation is one atomic step. A product rename onto an existing name raises an uncaught integrity error in the application, and nothing is committed; the model reports DuplicateProduct with no change.
- Products.SaveProduct: an edit of a product id that no longer exists is refused with ProductNotFound. The application would run an update that matches nothing and insert formula rows that belong to no product. Those orphan rows are not modelled.
- Products.SaveProduct: requires at most 30 rows, the number the editor shows; it is not a check the application makes.
- Free-text production timestamps: the date prompt accepts any text and is not parsed, so the date is a parameter stored stripped (empty when left blank or cancelled).
- Production.DeleteProduction credits whatever product holds the record's product id at the time. A record whose product was deleted, when that id has since gone to a newer product, credits the newer product's formula (`Production.StaleRecordCreditsReusedId`); the model does not track which product a record was made from beyond its id.
- Ingredient names are unique case-sensitively (a plain `TEXT UNIQUE` column). A negative quantity is accepted when adding or editing an ingredient. Editing, restocking or deleting a name that is not in stock silently changes nothing.
