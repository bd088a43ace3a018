/** The methods of `MenuImport`, acting on the store object `db`. The menu file's
    records arrive as parameters; the in-memory lists the Python code appends to
    are passed in and returned grown. Each method is proved equal to the
    function of Reconcile that describes it, and `ImportMenu` carries the
    run-level properties proved in Convergence. */
module MenuImport {
  import opened MenuModel
  import opened Store
  import opened Reconcile
  import opened Convergence

  /** `create_category`: a category whose name no row of the list carries is
      written to the store and read back by name; otherwise nothing happens. */
  method CreateCategory(category: Category, categoriesFromDb: seq<NamedRow>, db: Db)
    returns (inserted: Option<seq<NamedRow>>)
    modifies db
    ensures IsNewCategory(category, categoriesFromDb) ==>
      && db.Snapshot() == InsertNamed(old(db.Snapshot()), Categories, category.name)
      && inserted == Some(Named(db.categories, category.name))
      && inserted.value != [] && inserted.value[|inserted.value| - 1] == NamedRow(old(db.nextId), category.name)
    ensures !IsNewCategory(category, categoriesFromDb) ==> db.Snapshot() == old(db.Snapshot()) && inserted == None
  {
    inserted := None;
    if IsNewCategory(category, categoriesFromDb) {
      NamedAppend(db.categories, NamedRow(db.nextId, category.name), category.name);
      db.WriteNamed(Categories, category.name);
      var rows := db.GetNamed(Categories, category.name);
      inserted := Some(rows);
    }
  }

  /** `create_item`: only the item's name is written (its category name is not a
      column of `items`), and the rows carrying that name are read back. */
  method CreateItem(item: Item, itemsFromDb: seq<NamedRow>, db: Db)
    returns (inserted: Option<seq<NamedRow>>)
    modifies db
    ensures IsNewItem(item, itemsFromDb) ==>
      && db.Snapshot() == InsertNamed(old(db.Snapshot()), Items, item.name)
      && inserted == Some(Named(db.items, item.name))
      && inserted.value != [] && inserted.value[|inserted.value| - 1] == NamedRow(old(db.nextId), item.name)
    ensures !IsNewItem(item, itemsFromDb) ==> db.Snapshot() == old(db.Snapshot()) && inserted == None
  {
    inserted := None;
    if IsNewItem(item, itemsFromDb) {
      NamedAppend(db.items, NamedRow(db.nextId, item.name), item.name);
      db.WriteNamed(Items, item.name);
      var rows := db.GetNamed(Items, item.name);
      inserted := Some(rows);
    }
  }

  /** `create_category_item`: the item's category and the item are looked up by
      name (first match); when either is missing the `[0]` raises, reported here
      as `raised`. A pair no association of the list links is written and read
      back; an existing pair writes nothing. */
  method CreateCategoryItem(item: Item, itemsFromDb: seq<NamedRow>, categoriesFromDb: seq<NamedRow>,
                            categoryItemsFromDb: seq<AssocRow>, db: Db)
    returns (raised: bool, inserted: Option<seq<AssocRow>>)
    modifies db
    ensures raised <==> Resolve(item, categoriesFromDb, itemsFromDb).None?
    ensures raised ==> db.Snapshot() == old(db.Snapshot()) && inserted == None
    ensures !raised ==>
      var ids := Resolve(item, categoriesFromDb, itemsFromDb).value;
      if IsNewAssociation(categoryItemsFromDb, ids.0, ids.1) then
        && db.Snapshot() == InsertAssociation(old(db.Snapshot()), ids.0, ids.1)
        && inserted == Some(WithPair(db.categoryItems, ids.0, ids.1))
        && inserted.value != [] && inserted.value[|inserted.value| - 1] == AssocRow(old(db.nextId), ids.0, ids.1)
      else
        db.Snapshot() == old(db.Snapshot()) && inserted == None
  {
    raised, inserted := false, None;
    var matchedCategory := Named(categoriesFromDb, item.categoryName);
    var matchedItem := Named(itemsFromDb, item.name);
    if matchedCategory == [] || matchedItem == [] {
      raised := true;
      return;
    }
    var categoryId, itemId := matchedCategory[0].id, matchedItem[0].id;
    if IsNewAssociation(categoryItemsFromDb, categoryId, itemId) {
      WithPairAppend(db.categoryItems, AssocRow(db.nextId, categoryId, itemId), categoryId, itemId);
      db.WriteCategoryItem(categoryId, itemId);
      var rows := db.GetCategoryItemsFor(categoryId, itemId);
      inserted := Some(rows);
    }
  }

  /** `populate_categories`: every file category is created in file order, and the
      first row read back for each created one is appended to the list. */
  method PopulateCategories(categoriesFromFile: seq<Category>, categoriesFromDb: seq<NamedRow>, db: Db)
    returns (grown: seq<NamedRow>)
    modifies db
    ensures (grown, db.Snapshot())
         == PopulatedNames(Categories, CategoryNames(categoriesFromFile), categoriesFromDb, old(db.Snapshot()))
  {
    var names := CategoryNames(categoriesFromFile);
    grown := categoriesFromDb;
    for k := 0 to |categoriesFromFile|
      invariant PopulatedNames(Categories, names[k..], grown, db.Snapshot())
             == PopulatedNames(Categories, names, categoriesFromDb, old(db.Snapshot()))
    {
      assert names[k..][1..] == names[k + 1..];
      ghost var before := db.Snapshot();
      ghost var known := grown;
      var inserted := CreateCategory(categoriesFromFile[k], grown, db);
      if inserted.Some? && inserted.value != [] {
        grown := grown + [inserted.value[0]];
      }
      assert NameStep(Categories, names[k], known, before) == (grown, db.Snapshot()) by {
        assert names[k] == categoriesFromFile[k].name;
      }
    }
    assert names[|categoriesFromFile|..] == [];
  }

  /** `populate_items`: the same loop over the file items, keyed by item name only. */
  method PopulateItems(itemsFromFile: seq<Item>, itemsFromDb: seq<NamedRow>, db: Db)
    returns (grown: seq<NamedRow>)
    modifies db
    ensures (grown, db.Snapshot())
         == PopulatedNames(Items, ItemNames(itemsFromFile), itemsFromDb, old(db.Snapshot()))
  {
    var names := ItemNames(itemsFromFile);
    grown := itemsFromDb;
    for k := 0 to |itemsFromFile|
      invariant PopulatedNames(Items, names[k..], grown, db.Snapshot())
             == PopulatedNames(Items, names, itemsFromDb, old(db.Snapshot()))
    {
      assert names[k..][1..] == names[k + 1..];
      ghost var before := db.Snapshot();
      ghost var known := grown;
      var inserted := CreateItem(itemsFromFile[k], grown, db);
      if inserted.Some? && inserted.value != [] {
        grown := grown + [inserted.value[0]];
      }
      assert NameStep(Items, names[k], known, before) == (grown, db.Snapshot()) by {
        assert names[k] == itemsFromFile[k].name;
      }
    }
    assert names[|itemsFromFile|..] == [];
  }

  /** `populate_category_items`: an association is created for every file item in
      file order; the first item whose category or item is missing raises and
      ends the loop. */
  method PopulateCategoryItems(itemsFromFile: seq<Item>, itemsFromDb: seq<NamedRow>, categoriesFromDb: seq<NamedRow>,
                               categoryItemsFromDb: seq<AssocRow>, db: Db)
    returns (outcome: Outcome, grown: seq<AssocRow>)
    modifies db
    ensures (outcome, grown, db.Snapshot())
         == PopulatedAssocs(itemsFromFile, itemsFromDb, categoriesFromDb, categoryItemsFromDb, old(db.Snapshot()))
  {
    outcome, grown := Completed, categoryItemsFromDb;
    for k := 0 to |itemsFromFile|
      invariant PopulatedAssocs(itemsFromFile[k..], itemsFromDb, categoriesFromDb, grown, db.Snapshot())
             == PopulatedAssocs(itemsFromFile, itemsFromDb, categoriesFromDb, categoryItemsFromDb, old(db.Snapshot()))
    {
      assert itemsFromFile[k..][1..] == itemsFromFile[k + 1..];
      ghost var before := db.Snapshot();
      ghost var known := grown;
      var raised, inserted := CreateCategoryItem(itemsFromFile[k], itemsFromDb, categoriesFromDb, grown, db);
      if raised {
        outcome := Aborted(itemsFromFile[k]);
        return;
      }
      if inserted.Some? && inserted.value != [] {
        grown := grown + [inserted.value[0]];
      }
      assert AssocStep(itemsFromFile[k], itemsFromDb, categoriesFromDb, known, before) == Some((grown, db.Snapshot()));
    }
    assert itemsFromFile[|itemsFromFile|..] == [];
  }

  /** `delete_category_items`: every association of the list that is stale is
      deleted from the store by its id. */
  method DeleteCategoryItems(items: seq<Item>, itemsFromDb: seq<NamedRow>, categoriesFromDb: seq<NamedRow>,
                             categoryItemsFromDb: seq<AssocRow>, db: Db)
    modifies db
    ensures db.Snapshot() == Pruned(categoryItemsFromDb, itemsFromDb, categoriesFromDb, items, old(db.Snapshot()))
  {
    for k := 0 to |categoryItemsFromDb|
      invariant Pruned(categoryItemsFromDb[k..], itemsFromDb, categoriesFromDb, items, db.Snapshot())
             == Pruned(categoryItemsFromDb, itemsFromDb, categoriesFromDb, items, old(db.Snapshot()))
    {
      assert categoryItemsFromDb[k..][1..] == categoryItemsFromDb[k + 1..];
      var categoryItem := categoryItemsFromDb[k];
      if IsStale(categoryItem, categoriesFromDb, itemsFromDb, items) {
        db.DeleteCategoryItem(categoryItem.id);
      }
    }
    assert categoryItemsFromDb[|categoryItemsFromDb|..] == [];
  }

  /** `import_menu` once the menu file has been read: the three tables are loaded,
      the four steps run in order, and the deletion step is skipped when the
      association step raised. On a valid store any run leaves the store valid, in
      a state a second run leaves unchanged, and with unique names and pairs kept
      unique; a completed run leaves its associations standing for exactly the
      file's (category, item) pairs. */
  method ImportMenu(categoriesFromFile: seq<Category>, itemsFromFile: seq<Item>, db: Db)
    returns (outcome: Outcome)
    modifies db
    ensures (outcome, db.Snapshot()) == Run(categoriesFromFile, itemsFromFile, old(db.Snapshot()))
    ensures outcome == Completed <==>
      forall i :: i in itemsFromFile ==>
        (exists c :: c in categoriesFromFile && c.name == i.categoryName) ||
        (exists r :: r in old(db.categories) && r.name == i.categoryName)
    ensures Valid(old(db.Snapshot())) ==>
      Valid(db.Snapshot()) && Run(categoriesFromFile, itemsFromFile, db.Snapshot()) == (outcome, db.Snapshot())
    ensures Valid(old(db.Snapshot())) && outcome == Completed ==>
      ImpliedPairs(db.Snapshot()) == FilePairs(itemsFromFile)
    ensures Valid(old(db.Snapshot())) && UniqueNames(old(db.categories)) && UniqueNames(old(db.items))
            && UniquePairs(old(db.categoryItems)) ==>
      UniqueNames(db.categories) && UniqueNames(db.items) && UniquePairs(db.categoryItems)
  {
    ghost var start := db.Snapshot();
    var categoriesFromDb := db.Get(Categories);
    var itemsFromDb := db.Get(Items);
    var categoryItemsFromDb := db.GetCategoryItems();
    categoriesFromDb := PopulateCategories(categoriesFromFile, categoriesFromDb, db);
    itemsFromDb := PopulateItems(itemsFromFile, itemsFromDb, db);
    outcome, categoryItemsFromDb := PopulateCategoryItems(itemsFromFile, itemsFromDb, categoriesFromDb, categoryItemsFromDb, db);
    if outcome.Completed? {
      DeleteCategoryItems(itemsFromFile, itemsFromDb, categoriesFromDb, categoryItemsFromDb, db);
    }
    RunCompletes(categoriesFromFile, itemsFromFile, start);
    if Valid(start) {
      RunReachesSync(categoriesFromFile, itemsFromFile, start);
      Converges(categoriesFromFile, itemsFromFile, start);
      Idempotent(categoriesFromFile, itemsFromFile, start);
      if UniqueNames(start.categories) && UniqueNames(start.items) && UniquePairs(start.categoryItems) {
        RunKeepsUnique(categoriesFromFile, itemsFromFile, start);
      }
    }
  }
}
