# Menu import reconciliation, modelled in Dafny

`MenuImport.import_menu` brings a relational store of three tables in line with
a menu snapshot:
- `categories` (id, name);
- `items` (id, name);
- `category_items` (id, category_id, item_id).

The snapshot lists category records `{name}` and item records `{name, category_name}`.

The import loads the three tables once into in-memory lists. It then runs four
steps in order, each step appending to the lists what it creates so that later
steps see it:
1. `populate_categories` inserts each file category whose name no listed row carries.
2. `populate_items` does the same for items, keyed by name only.
3. `populate_category_items` resolves each file item's category name and item name to ids, by first match. It inserts the `(category_id, item_id)` association when no listed association links that pair. When either name matches no row, the `[0]` raises, and the handler of `import_menu` ends the run.
4. `delete_category_items` walks the grown association list. It deletes, by its id, every association that is stale:
   - its category id or item id matches no listed row, or
   - no file item carries its (item name, category name).

The store is a class holding three row sequences and a counter that hands out
fresh ids. `write` appends a row with the next id, `get` filters by equality in
table order, and `delete` removes the rows with a given id.

The project has five modules:
- `MenuModel` (menu_model.dfy) holds the records, the rows and the pure lookups: `_is_new_category`, `_is_new_item`, the pair test of `create_category_item`, and the deletion test.
- `Store` (store.dfy) holds the store, both as a value (`Tables`) and as the mutable class `Db`.
- `Reconcile` (reconcile.dfy) holds each step as a function that follows its loop record by record, with the lemmas about each step.
- `Convergence` (convergence.dfy) holds what a whole run does: it completes exactly when every file item's category exists, a completed run converges, every run is idempotent, and unique names and pairs stay unique.
- `MenuImport` (menu_import.dfy) holds the methods of `MenuImport`. They are imperative loops over the store object, each proved equal to its step function.

A store is `Valid` when two things hold:
- ids are distinct within each table;
- every id, including those an association refers to, was handed out by the counter.

The run-level results assume a valid store at the start and prove that every run keeps it valid, whether it completes or stops at an unresolved file item.

## Model

| member | source | states |
|---|---|---|
| MenuModel.IsNewCategory | menu_import.py:249-253 | true exactly when no existing row has the category's name |
| MenuModel.IsNewItem | menu_import.py:271-275 | true exactly when no existing row has the item's name; the item's category plays no part |
| MenuModel.IsNewAssociation | menu_import.py:227-230 | an empty association list always gives true; otherwise true exactly when no association links the same category id and item id |
| MenuModel.Resolve | menu_import.py:221-226 | the lookup fails exactly when no category row carries the item's category name or no item row carries its name; on success the ids are those of rows carrying those names |
| MenuModel.ResolvedPair | menu_import.py:136-143 | an association's (category name, item name) is undefined exactly when its category id or item id matches no row; otherwise it is the names of rows with those ids |
| MenuModel.IsStale | menu_import.py:138-147 | an association with an unknown category id or item id is deleted whatever the file says; a resolved one is deleted exactly when its name pair is not among the file items' pairs |
| MenuModel.ResolveRoundTrip | menu_import.py:223-226 | with distinct ids, an association made of the ids a file item resolves to names that file item's category and item again |
| MenuModel.WithIdIgnoresOthers | menu_import.py:138-139 | rows appended with other ids do not change an id lookup |
| Store.DeleteAssociation | db.py:95-131 | deleting by id removes exactly the associations with that id and keeps every other one |
| Store.InsertNamed | db.py:24-52 | definition of `write` on `categories` or `items`: the row is appended with the next id; `Store.Db.WriteNamed` is proved to act as it, see `InsertNamedValid` |
| Store.InsertAssociation | db.py:24-52 | definition of `write` on `category_items`; `Store.Db.WriteCategoryItem` is proved to act as it, see `InsertAssociationValid` |
| Store.InsertNamedValid | db.py:24-52 | writing a category or item row keeps ids distinct and below the counter |
| Store.InsertAssociationValid | db.py:24-52 | writing an association between handed-out ids keeps the store valid |
| Store.DeleteAssociationValid | db.py:95-131 | deleting keeps the store valid |
| Store.DeleteAssociationUnique | db.py:95-131 | deleting keeps the associations' (category id, item id) pairs unique |
| Store.Db.Get | db.py:55-93 | an unfiltered read returns the whole table |
| Store.Db.GetNamed | db.py:55-93 | a read filtered by name returns exactly the table's rows with that name, in table order |
| Store.Db.GetCategoryItems | db.py:55-93 | an unfiltered read of `category_items` returns the whole table |
| Store.Db.GetCategoryItemsFor | db.py:55-93 | a read filtered by category id and item id returns exactly the associations linking them |
| Store.Db.WriteNamed | db.py:24-52 | the row is appended with the next id and the counter advances; nothing else changes |
| Store.Db.WriteCategoryItem | db.py:24-52 | the association is appended with the next id and the counter advances; nothing else changes |
| Store.Db.DeleteCategoryItem | menu_import.py:148 | the store afterwards is the store with the associations of that id removed |
| Reconcile.NameStep | menu_import.py:73-75 | definition of one iteration of `populate_categories` or `populate_items`, with `create_category` (169-171) or `create_item` (192-196) inlined; see `NameStepList`, `NameStepTables` |
| Reconcile.PopulatedNames | menu_import.py:72-75 | definition of the whole `populate_categories` loop, and of `populate_items` (91-94); `MenuImport.PopulateCategories` and `MenuImport.PopulateItems` are proved equal to it; see the `PopulatedNames*` lemmas |
| Reconcile.AssocStep | menu_import.py:114-116 | definition of one iteration of `populate_category_items`, with `create_category_item` (221-232) inlined; None is the raise; see `AssocStepFacts` |
| Reconcile.PopulatedAssocs | menu_import.py:113-116 | definition of the whole loop, stopping at the first raise; `MenuImport.PopulateCategoryItems` is proved equal to it; see the `PopulatedAssocs*` lemmas |
| Reconcile.Pruned | menu_import.py:135-148 | definition of `delete_category_items`; `MenuImport.DeleteCategoryItems` is proved equal to it; see `PrunedDeletes` |
| Reconcile.Populate | menu_import.py:30-40 | definition of the three loads and the three populate steps; see `Convergence.PopulateFacts` |
| Reconcile.Run | menu_import.py:29-44 | definition of `import_menu` once the file is read; `MenuImport.ImportMenu` is proved equal to it; see the `Convergence` lemmas |
| Reconcile.NameStepList | menu_import.py:72-75 | one iteration grows the list by at most one row, carrying the file name, keeps the earlier rows, and leaves the name carried by the list |
| Reconcile.NameStepTables | menu_import.py:169-171 | one iteration writes the name with the next id to its own table exactly when the list does not carry it, and touches no other table |
| Reconcile.PopulatedNamesExtends | menu_import.py:72-75 | the list only grows at its end; the rows present beforehand are unchanged |
| Reconcile.PopulatedNamesCovers | menu_import.py:72-75 | afterwards every file name is carried by a row of the list |
| Reconcile.PopulatedNamesAppendsFileNames | menu_import.py:91-94 | every row appended to the list carries a file name |
| Reconcile.PopulatedNamesFrame | menu_import.py:169-171 | the step writes to its own table only |
| Reconcile.PopulatedNamesWrites | menu_import.py:169-171 | the table only grows at its end, by rows with consecutive fresh ids |
| Reconcile.PopulatedNamesWritesNew | menu_import.py:192-196 | every row written carries a file name that no row of the incoming list carried |
| Reconcile.PopulatedNamesWritesOnce | menu_import.py:91-94 | no duplicate creation: the rows written carry pairwise distinct names, so repeated file names cause one insert |
| Reconcile.PopulatedNamesMirrors | menu_import.py:72-75 | when the list starts as the table's contents, it stays so, and the store stays valid |
| Reconcile.PopulatedNamesUnique | menu_import.py:72-75 | no row appended to the list carries the name of an earlier row, whether it was there before or appended earlier |
| Reconcile.PopulatedNamesNoop | menu_import.py:91-94 | when every file name is already carried, nothing is written and the list is unchanged |
| Reconcile.AssocStepFacts | menu_import.py:113-116 | one iteration raises exactly when the item does not resolve; otherwise it grows the list by at most a row linking the resolved ids, leaves such a link present, and leaves `categories` and `items` alone |
| Reconcile.PopulatedAssocsOutcome | menu_import.py:113-116 | the step completes exactly when every file item resolves; when it raises, it names a file item that does not resolve |
| Reconcile.PopulatedAssocsExtends | menu_import.py:113-116 | the list only grows at its end, and the category and item tables are untouched |
| Reconcile.PopulatedAssocsGrows | menu_import.py:113-116 | the list only grows at its end; on completion each file item's resolved pair is linked; `categories` and `items` are untouched |
| Reconcile.PopulatedAssocsAppendsFilePairs | menu_import.py:228-232 | each association appended links the ids some file item resolves to |
| Reconcile.FirstUnresolvedMeans | menu_import.py:223-226 | the position of the first file item whose category or item name matches no row, or the number of file items when all match; every item before it resolves |
| Reconcile.PopulatedAssocsStopsAt | menu_import.py:113-116 | the step stops with `Aborted` at exactly the first file item that does not resolve, and completes when there is none; every file item before that point has its pair linked in the list |
| Reconcile.PopulatedAssocsNoopUntil | menu_import.py:113-116 | when every file item before the first unresolved one is already linked, nothing is written and the step ends at the same point |
| Reconcile.PopulatedAssocsUnique | menu_import.py:227-232 | no association appended links the (category id, item id) pair of an earlier one, whether it was there before or appended earlier |
| Reconcile.AssocStepMirrors | menu_import.py:230-232 | when the list is the table's contents, one iteration keeps it so, and keeps the store valid |
| Reconcile.PopulatedAssocsMirrors | menu_import.py:113-116 | the same for the whole loop |
| Reconcile.PopulatedAssocsNoop | menu_import.py:113-116 | when every file item resolves to an already linked pair, nothing is written |
| Reconcile.PrunedDeletes | menu_import.py:135-148 | the deletion step removes exactly the associations whose id is that of a stale listed association, changes no other table or the counter, and keeps the store valid |
| Reconcile.PrunedDeletesOrphans | menu_import.py:138-141 | a listed association whose category id or item id matches no row is gone afterwards, whatever the file lists |
| Reconcile.PrunedKeepsListed | menu_import.py:142-146 | a listed association whose name pair the file lists is kept, row and id unchanged, when association ids are distinct |
| Reconcile.PrunedKeepsUniquePairs | menu_import.py:135-148 | the deletion step keeps the associations' pairs unique |
| Reconcile.PrunedNoop | menu_import.py:135-148 | with no stale listed association, nothing is deleted |
| Convergence.PopulateCategoriesFacts | menu_import.py:30-36 | on a valid store, `populate_categories` keeps the list equal to the table and the store valid; the table gains only rows with fresh ids; every file category gets a row; the other tables are untouched |
| Convergence.PopulateItemsFacts | menu_import.py:32-38 | on a valid store, `populate_items` keeps the list equal to the table and the store valid; the table gains only rows with fresh ids; the other tables are untouched |
| Convergence.PopulateFacts | menu_import.py:30-40 | on a valid store the three populate steps keep the lists equal to the tables and the store valid; the category and item tables gain only rows with fresh ids; every file category gets a row; associations are only appended; on completion every file item resolves and its pair is linked |
| Convergence.PopulateAppendsFilePairs | menu_import.py:36-40 | each association the populate steps append links the ids some file item resolves to |
| Convergence.CategoryCarried | menu_import.py:72-75 | after `populate_categories`, a name is carried by the list exactly when it is a file category's name or was carried beforehand |
| Convergence.ResolvedPairStable | menu_import.py:136-143 | rows appended with fresh ids do not change what an existing association stands for |
| Convergence.RunCompletes | menu_import.py:36-44 | a run completes exactly when every file item's category is a file category or is already stored |
| Convergence.PrunedSyncs | menu_import.py:135-148 | on a valid store with every file category named and every file item linked, the deletion step leaves the store in step with the file |
| Convergence.RunReachesSync | menu_import.py:36-42 | a completed run leaves a valid store that is in step with the file |
| Convergence.SyncedRunIsNoop | menu_import.py:36-42 | a run on a store in step with the file completes and writes and deletes nothing |
| Convergence.SyncedImpliesFilePairs | menu_import.py:135-148 | in a valid store in step with the file, the name pairs the associations stand for are exactly the file items' pairs |
| Convergence.Converges | menu_import.py:36-42 | after a completed run the name pairs the stored associations stand for are exactly the file items' (category name, name) pairs |
| Convergence.AbortedRunIsNoop | menu_import.py:43-44 | a run that stops at an unresolved file item leaves a valid store, and a second run with the same file writes nothing and stops at the same item |
| Convergence.Idempotent | menu_import.py:29-44 | whatever its outcome, a run on a valid store leaves it valid, and a second run with the same file writes and deletes nothing and ends the same way |
| Convergence.RunKeepsUnique | menu_import.py:29-44 | on a valid store whose category names, item names and association pairs are unique, a run keeps them unique, whatever its outcome |
| Convergence.PrunedKeepsResolved | menu_import.py:142-146 | an association linking the ids a file item resolves to survives the deletion step |
| Convergence.RunKeepsWrittenAssociations | menu_import.py:40-42 | no association created by the run is deleted by it |
| Convergence.RunKeepsListed | menu_import.py:142-146 | a stored association whose name pair the file lists survives a completed run |
| Convergence.RunDeletesOrphans | menu_import.py:138-148 | a stored association whose category id or item id matches no stored row is gone, by id, after a completed run |
| MenuImport.CreateCategory | menu_import.py:169-171 | a new name is written with the next id and read back, the rows read back ending with the one just written; a known name changes nothing and returns nothing |
| MenuImport.CreateItem | menu_import.py:192-196 | only the item's name is written, with the next id, and read back; a known name changes nothing |
| MenuImport.CreateCategoryItem | menu_import.py:221-232 | raises exactly when the item does not resolve, changing nothing; a pair not linked in the list is written and read back; a linked pair changes nothing |
| MenuImport.PopulateCategories | menu_import.py:72-75 | the grown list and the new store are those of the step function |
| MenuImport.PopulateItems | menu_import.py:91-94 | the grown list and the new store are those of the step function |
| MenuImport.PopulateCategoryItems | menu_import.py:113-116 | the outcome, the grown list and the new store are those of the step function; the loop stops at the first item that raises |
| MenuImport.DeleteCategoryItems | menu_import.py:135-148 | the new store is that of the deletion function |
| MenuImport.ImportMenu | menu_import.py:29-44 | the outcome and new store are those of `Run`; the run completes exactly when every file item's category exists; on a valid store any run leaves it valid and unchanged by a second run, and keeps unique names and pairs unique; a completed run converges to the file's pairs |

## Left out

- The FTP download (`load_menu`, ftp_client.py) and reading the JSON file (menu_helper.py) are not part of this model. The file's category and item records are parameters of `ImportMenu`.
- Logging, `datetime.now()` and the `__main__` entry point are left out. They are output and a clock only.
- The catch-all handler of `import_menu` is modelled for the one exception the core can raise: the `[0]` on an empty match in `create_category_item`. It is reported as the outcome `Aborted(item)`, and the deletion step is then skipped.
- An unresolved file item ends the run: the `[0]` at menu_import.py:225-226 raises, and the handler at 43-44 skips the remaining file items and the deletion step. The model follows this, and `Idempotent` shows that a second run then stops at the same item without writing anything.
- Failures inside db.py are left out: a failed connection, a failed `INSERT` or a failed `DELETE`. db.py catches and prints them, which leaves an empty read-back or a row not deleted. In the model every store operation succeeds, so a created row is always read back.
- The psycopg2 connection handling, the SQL text and the commit plumbing of db.py are left out. The model keeps only what `write`, `get` and `delete` do to the rows.
- The unfiltered `DELETE` that db.py issues for an empty filter is left out. `delete_category_items` always passes `{"id": ...}`.
- Row order: `SELECT` without `ORDER BY` has no defined order. The model reads rows in insertion order, and "first match" means the first in that order.
- Ids are unbounded naturals handed out by one counter shared by the three tables, standing in for the database's serial keys (one sequence per table). `Valid` also asks that every id an association refers to came from that counter. A new category or item therefore never takes the id of a dangling reference, whereas with per-table sequences a dangling reference could later match a new row.
- The database schema is reduced to `Valid`: ids are primary keys, distinct within a table. No uniqueness constraint on names or association pairs is assumed. `RunKeepsUnique` proves that a run keeps category names, item names and association pairs unique when they were unique before.
- Aliasing: the Python steps append to the caller's lists in place. The model passes each list in and returns it grown, so the sharing between steps is explicit rather than through aliasing.
- Concurrent runs against the same store are not modelled.
