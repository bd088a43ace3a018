/** What a whole run of `import_menu` does to a store whose ids are primary keys
    and were handed out by the counter: when it completes, the store holds exactly
    the category-item pairs the file names, and a second run with the same file
    changes nothing. */
module Convergence {
  import opened MenuModel
  import opened Store
  import opened Reconcile

  /** `after` is `before` with rows appended, each with an id at or above `bound`. */
  predicate AppendedFrom(before: seq<NamedRow>, after: seq<NamedRow>, bound: nat)
  {
    && |before| <= |after| && after[..|before|] == before
    && (forall k :: |before| <= k < |after| ==> after[k].id >= bound)
  }

  /** The (category name, item name) pairs the stored associations stand for. */
  function ImpliedPairs(t: Tables): set<(string, string)>
  {
    set a | a in t.categoryItems && ResolvedPair(a, t.categories, t.items).Some? :: ResolvedPair(a, t.categories, t.items).value
  }

  /** A store in step with the file: every file category and every file item has
      a row, every file item's pair is linked, and no association is stale. */
  predicate Synced(t: Tables, fileCategories: seq<Category>, fileItems: seq<Item>)
  {
    && (forall c :: c in fileCategories ==> Named(t.categories, c.name) != [])
    && (forall i :: i in fileItems ==>
          Resolve(i, t.categories, t.items).Some? &&
          WithPair(t.categoryItems, Resolve(i, t.categories, t.items).value.0, Resolve(i, t.categories, t.items).value.1) != [])
    && (forall a :: a in t.categoryItems ==> !IsStale(a, t.categories, t.items, fileItems))
  }

  lemma CategoryNamesCover(fileCategories: seq<Category>, c: Category)
    requires c in fileCategories
    ensures c.name in CategoryNames(fileCategories)
  {
    var k :| 0 <= k < |fileCategories| && fileCategories[k] == c;
    assert CategoryNames(fileCategories)[k] == c.name;
  }

  lemma ItemNamesCover(fileItems: seq<Item>, i: Item)
    requires i in fileItems
    ensures i.name in ItemNames(fileItems)
  {
    var k :| 0 <= k < |fileItems| && fileItems[k] == i;
    assert ItemNames(fileItems)[k] == i.name;
  }

  /** `populate_categories` on a valid store: the list stays the table's contents,
      the table gains only rows with fresh ids, every file category gets a row, and
      the other tables are untouched. */
  lemma PopulateCategoriesFacts(fileCategories: seq<Category>, t: Tables)
    requires Valid(t)
    ensures var r := PopulatedNames(Categories, CategoryNames(fileCategories), t.categories, t);
      && Valid(r.1) && r.0 == r.1.categories && r.1.items == t.items && r.1.categoryItems == t.categoryItems
      && AppendedFrom(t.categories, r.0, t.nextId) && t.nextId <= r.1.nextId
      && (forall c :: c in fileCategories ==> Named(r.0, c.name) != [])
  {
    var names := CategoryNames(fileCategories);
    PopulatedNamesMirrors(Categories, names, t.categories, t);
    PopulatedNamesFrame(Categories, names, t.categories, t);
    PopulatedNamesCovers(Categories, names, t.categories, t);
    PopulatedNamesWrites(Categories, names, t.categories, t);
    forall c | c in fileCategories
      ensures Named(PopulatedNames(Categories, names, t.categories, t).0, c.name) != []
    {
      CategoryNamesCover(fileCategories, c);
    }
  }

  /** `populate_items` on a valid store: the list stays the table's contents, the
      table gains only rows with fresh ids, and the other tables are untouched. */
  lemma PopulateItemsFacts(fileItems: seq<Item>, t: Tables)
    requires Valid(t)
    ensures var r := PopulatedNames(Items, ItemNames(fileItems), t.items, t);
      && Valid(r.1) && r.0 == r.1.items && r.1.categories == t.categories && r.1.categoryItems == t.categoryItems
      && AppendedFrom(t.items, r.0, t.nextId) && t.nextId <= r.1.nextId
  {
    var names := ItemNames(fileItems);
    PopulatedNamesMirrors(Items, names, t.items, t);
    PopulatedNamesFrame(Items, names, t.items, t);
    PopulatedNamesWrites(Items, names, t.items, t);
  }

  /** The populate steps on a valid store: the lists stay the tables' contents and
      the store valid, the category and item tables gain only rows with fresh ids,
      every file category gets a row, the association table only grows, and on
      completion every file item's pair is linked. */
  lemma PopulateFacts(fileCategories: seq<Category>, fileItems: seq<Item>, t: Tables)
    requires Valid(t)
    ensures var p := Populate(fileCategories, fileItems, t);
      && Valid(p.tables)
      && p.categories == p.tables.categories && p.items == p.tables.items && p.assocs == p.tables.categoryItems
      && AppendedFrom(t.categories, p.categories, t.nextId)
      && AppendedFrom(t.items, p.items, t.nextId)
      && |t.categoryItems| <= |p.assocs| && p.assocs[..|t.categoryItems|] == t.categoryItems
      && (forall c :: c in fileCategories ==> Named(p.categories, c.name) != [])
      && (p.outcome == Completed ==> forall i :: i in fileItems ==>
            Resolve(i, p.categories, p.items).Some? &&
            WithPair(p.assocs, Resolve(i, p.categories, p.items).value.0, Resolve(i, p.categories, p.items).value.1) != [])
  {
    var r1 := PopulatedNames(Categories, CategoryNames(fileCategories), t.categories, t);
    PopulateCategoriesFacts(fileCategories, t);
    var r2 := PopulatedNames(Items, ItemNames(fileItems), t.items, r1.1);
    PopulateItemsFacts(fileItems, r1.1);
    PopulatedAssocsMirrors(fileItems, r2.0, r1.0, t.categoryItems, r2.1);
    PopulatedAssocsGrows(fileItems, r2.0, r1.0, t.categoryItems, r2.1);
  }

  /** Each association the populate steps append links the ids some file item
      resolves to in the grown lists. */
  lemma PopulateAppendsFilePairs(fileCategories: seq<Category>, fileItems: seq<Item>, t: Tables)
    ensures var p := Populate(fileCategories, fileItems, t);
      LinksFileItems(fileItems, p.items, p.categories, p.assocs, |t.categoryItems|)
  {
    var r1 := PopulatedNames(Categories, CategoryNames(fileCategories), t.categories, t);
    var r2 := PopulatedNames(Items, ItemNames(fileItems), t.items, r1.1);
    PopulatedAssocsAppendsFilePairs(fileItems, r2.0, r1.0, t.categoryItems, r2.1);
  }

  /** Rows appended with fresh ids do not change what an association made of old
      ids stands for. */
  lemma ResolvedPairStable(a: AssocRow, categories: seq<NamedRow>, items: seq<NamedRow>, t: Tables)
    requires a.categoryId < t.nextId && a.itemId < t.nextId
    requires AppendedFrom(t.categories, categories, t.nextId) && AppendedFrom(t.items, items, t.nextId)
    ensures ResolvedPair(a, categories, items) == ResolvedPair(a, t.categories, t.items)
  {
    var extraCategories := categories[|t.categories|..];
    assert categories == t.categories + extraCategories;
    WithIdIgnoresOthers(t.categories, extraCategories, a.categoryId);
    var extraItems := items[|t.items|..];
    assert items == t.items + extraItems;
    WithIdIgnoresOthers(t.items, extraItems, a.itemId);
  }

  /** After `populate_categories`, a name is carried by the grown list exactly when
      it is a file category's name or a row of the incoming list carries it. */
  lemma CategoryCarried(fileCategories: seq<Category>, known: seq<NamedRow>, grown: seq<NamedRow>, name: string)
    requires |known| <= |grown| && grown[..|known|] == known
    requires forall n :: n in CategoryNames(fileCategories) ==> Named(grown, n) != []
    requires forall k :: |known| <= k < |grown| ==> grown[k].name in CategoryNames(fileCategories)
    ensures Named(grown, name) != [] <==>
      (exists c :: c in fileCategories && c.name == name) || (exists r :: r in known && r.name == name)
  {
    var names := CategoryNames(fileCategories);
    if exists c :: c in fileCategories && c.name == name {
      var c :| c in fileCategories && c.name == name;
      CategoryNamesCover(fileCategories, c);
    }
    assert forall x :: x in known ==> x in grown by {
      assert grown[..|known|] == known;
    }
    if exists r :: r in known && r.name == name {
      var r :| r in known && r.name == name;
      assert r in Named(grown, name);
    }
    if Named(grown, name) != [] {
      var x := Named(grown, name)[0];
      assert x in Named(grown, name);
      var k :| 0 <= k < |grown| && grown[k] == x;
      if k < |known| {
        assert grown[..|known|][k] == x;
      } else {
        var j :| 0 <= j < |names| && names[j] == name;
        assert fileCategories[j] in fileCategories;
      }
    }
  }

  /** `import_menu` completes exactly when every file item's category is a file
      category or is already in the store. */
  lemma RunCompletes(fileCategories: seq<Category>, fileItems: seq<Item>, t: Tables)
    ensures Run(fileCategories, fileItems, t).0 == Completed <==>
      forall i :: i in fileItems ==>
        (exists c :: c in fileCategories && c.name == i.categoryName) ||
        (exists r :: r in t.categories && r.name == i.categoryName)
  {
    var categoryNames, itemNames := CategoryNames(fileCategories), ItemNames(fileItems);
    var r1 := PopulatedNames(Categories, categoryNames, t.categories, t);
    PopulatedNamesCovers(Categories, categoryNames, t.categories, t);
    PopulatedNamesExtends(Categories, categoryNames, t.categories, t);
    PopulatedNamesAppendsFileNames(Categories, categoryNames, t.categories, t);
    var r2 := PopulatedNames(Items, itemNames, t.items, r1.1);
    PopulatedNamesCovers(Items, itemNames, t.items, r1.1);
    PopulatedAssocsOutcome(fileItems, r2.0, r1.0, t.categoryItems, r2.1);
    forall i | i in fileItems
      ensures Resolve(i, r1.0, r2.0).Some? <==>
        (exists c :: c in fileCategories && c.name == i.categoryName) ||
        (exists r :: r in t.categories && r.name == i.categoryName)
    {
      ItemNamesCover(fileItems, i);
      CategoryCarried(fileCategories, t.categories, r1.0, i.categoryName);
    }
  }

  /** On a valid store whose lists are its tables, with every file category named
      and every file item linked, the deletion step leaves the store in step with
      the file. */
  lemma PrunedSyncs(fileCategories: seq<Category>, fileItems: seq<Item>, t: Tables)
    requires Valid(t)
    requires forall c :: c in fileCategories ==> Named(t.categories, c.name) != []
    requires forall i :: i in fileItems ==>
      Resolve(i, t.categories, t.items).Some? &&
      WithPair(t.categoryItems, Resolve(i, t.categories, t.items).value.0, Resolve(i, t.categories, t.items).value.1) != []
    ensures Synced(Pruned(t.categoryItems, t.items, t.categories, fileItems, t), fileCategories, fileItems)
  {
    var t' := Pruned(t.categoryItems, t.items, t.categories, fileItems, t);
    PrunedDeletes(t.categoryItems, t.items, t.categories, fileItems, t);
    forall i | i in fileItems
      ensures WithPair(t'.categoryItems, Resolve(i, t.categories, t.items).value.0,
                       Resolve(i, t.categories, t.items).value.1) != []
    {
      var ids := Resolve(i, t.categories, t.items).value;
      var a := WithPair(t.categoryItems, ids.0, ids.1)[0];
      assert a in WithPair(t.categoryItems, ids.0, ids.1);
      PrunedKeepsResolved(t.categoryItems, t.items, t.categories, fileItems, t, a, i);
      assert a in WithPair(t'.categoryItems, ids.0, ids.1);
    }
    forall a | a in t'.categoryItems
      ensures !IsStale(a, t'.categories, t'.items, fileItems)
    {
      assert IsStale(a, t.categories, t.items, fileItems) ==>
        a.id in StaleIds(t.categoryItems, t.items, t.categories, fileItems);
    }
  }

  /** A run that completes leaves the store valid and in step with the file. */
  lemma RunReachesSync(fileCategories: seq<Category>, fileItems: seq<Item>, t: Tables)
    requires Valid(t)
    ensures var r := Run(fileCategories, fileItems, t);
      r.0 == Completed ==> Valid(r.1) && Synced(r.1, fileCategories, fileItems)
  {
    var p := Populate(fileCategories, fileItems, t);
    PopulateFacts(fileCategories, fileItems, t);
    if p.outcome == Completed {
      PrunedDeletes(p.assocs, p.items, p.categories, fileItems, p.tables);
      PrunedSyncs(fileCategories, fileItems, p.tables);
    }
  }

  /** A store in step with the file is left exactly as it is. */
  lemma SyncedRunIsNoop(fileCategories: seq<Category>, fileItems: seq<Item>, t: Tables)
    requires Synced(t, fileCategories, fileItems)
    ensures Run(fileCategories, fileItems, t) == (Completed, t)
  {
    var categoryNames, itemNames := CategoryNames(fileCategories), ItemNames(fileItems);
    forall n | n in categoryNames
      ensures Named(t.categories, n) != []
    {
      var k :| 0 <= k < |categoryNames| && categoryNames[k] == n;
      assert fileCategories[k] in fileCategories;
    }
    PopulatedNamesNoop(Categories, categoryNames, t.categories, t);
    forall n | n in itemNames
      ensures Named(t.items, n) != []
    {
      var k :| 0 <= k < |itemNames| && itemNames[k] == n;
      var i := fileItems[k];
      assert i in fileItems;
      assert Named(t.items, i.name) != [] by {
        var x :| x in t.items && x.name == i.name;
        assert x in Named(t.items, i.name);
      }
    }
    PopulatedNamesNoop(Items, itemNames, t.items, t);
    PopulatedAssocsNoop(fileItems, t.items, t.categories, t.categoryItems, t);
    PrunedNoop(t.categoryItems, t.items, t.categories, fileItems, t);
  }

  /** In a valid store in step with the file, the associations stand for exactly
      the file's (category, item) pairs. */
  lemma SyncedImpliesFilePairs(fileCategories: seq<Category>, fileItems: seq<Item>, t: Tables)
    requires Valid(t) && Synced(t, fileCategories, fileItems)
    ensures ImpliedPairs(t) == FilePairs(fileItems)
  {
    forall q | q in FilePairs(fileItems)
      ensures q in ImpliedPairs(t)
    {
      var i :| i in fileItems && q == (i.categoryName, i.name);
      var ids := Resolve(i, t.categories, t.items).value;
      var a := WithPair(t.categoryItems, ids.0, ids.1)[0];
      assert a in WithPair(t.categoryItems, ids.0, ids.1);
      ResolveRoundTrip(i, t.categories, t.items, a);
    }
  }

  /** Convergence: after a completed run the store's associations stand for
      exactly the (category, item) pairs the file lists. */
  lemma Converges(fileCategories: seq<Category>, fileItems: seq<Item>, t: Tables)
    requires Valid(t)
    ensures var r := Run(fileCategories, fileItems, t);
      r.0 == Completed ==> ImpliedPairs(r.1) == FilePairs(fileItems)
  {
    RunReachesSync(fileCategories, fileItems, t);
    var r := Run(fileCategories, fileItems, t);
    if r.0 == Completed {
      SyncedImpliesFilePairs(fileCategories, fileItems, r.1);
    }
  }

  /** A run that stops at an unresolved file item leaves a valid store, and a
      second run with the same file writes nothing and stops at the same item. */
  lemma AbortedRunIsNoop(fileCategories: seq<Category>, fileItems: seq<Item>, t: Tables)
    requires Valid(t)
    ensures var r := Run(fileCategories, fileItems, t);
      r.0.Aborted? ==> Valid(r.1) && Run(fileCategories, fileItems, r.1) == r
  {
    var p := Populate(fileCategories, fileItems, t);
    PopulateFacts(fileCategories, fileItems, t);
    if p.outcome.Aborted? {
      var t' := p.tables;
      var categoryNames, itemNames := CategoryNames(fileCategories), ItemNames(fileItems);
      forall n | n in categoryNames
        ensures Named(t'.categories, n) != []
      {
        var k :| 0 <= k < |categoryNames| && categoryNames[k] == n;
        assert fileCategories[k] in fileCategories;
      }
      PopulatedNamesNoop(Categories, categoryNames, t'.categories, t');
      var r1 := PopulatedNames(Categories, categoryNames, t.categories, t);
      var r2 := PopulatedNames(Items, itemNames, t.items, r1.1);
      PopulatedNamesCovers(Items, itemNames, t.items, r1.1);
      assert r2.0 == t'.items;
      PopulatedNamesNoop(Items, itemNames, t'.items, t');
      PopulatedAssocsStopsAt(fileItems, r2.0, r1.0, t.categoryItems, r2.1);
      PopulatedAssocsNoopUntil(fileItems, t'.items, t'.categories, t'.categoryItems, t');
    }
  }

  /** Idempotence: whatever the first run's outcome, it leaves a valid store, and a
      second run with the same file writes and deletes nothing and ends the same way. */
  lemma Idempotent(fileCategories: seq<Category>, fileItems: seq<Item>, t: Tables)
    requires Valid(t)
    ensures var r := Run(fileCategories, fileItems, t);
      Valid(r.1) && Run(fileCategories, fileItems, r.1) == r
  {
    RunReachesSync(fileCategories, fileItems, t);
    AbortedRunIsNoop(fileCategories, fileItems, t);
    var r := Run(fileCategories, fileItems, t);
    if r.0 == Completed {
      SyncedRunIsNoop(fileCategories, fileItems, r.1);
    }
  }

  /** A run keeps category names, item names and associations' pairs unique in
      the store when they were unique before it, whatever its outcome. */
  lemma RunKeepsUnique(fileCategories: seq<Category>, fileItems: seq<Item>, t: Tables)
    requires Valid(t)
    requires UniqueNames(t.categories) && UniqueNames(t.items) && UniquePairs(t.categoryItems)
    ensures var t' := Run(fileCategories, fileItems, t).1;
      UniqueNames(t'.categories) && UniqueNames(t'.items) && UniquePairs(t'.categoryItems)
  {
    var p := Populate(fileCategories, fileItems, t);
    PopulateFacts(fileCategories, fileItems, t);
    var r1 := PopulatedNames(Categories, CategoryNames(fileCategories), t.categories, t);
    var r2 := PopulatedNames(Items, ItemNames(fileItems), t.items, r1.1);
    PopulatedNamesUnique(Categories, CategoryNames(fileCategories), t.categories, t);
    PopulatedNamesExtends(Categories, CategoryNames(fileCategories), t.categories, t);
    UniqueNamesChain(t.categories, r1.0, 0);
    PopulatedNamesUnique(Items, ItemNames(fileItems), t.items, r1.1);
    PopulatedNamesExtends(Items, ItemNames(fileItems), t.items, r1.1);
    UniqueNamesChain(t.items, r2.0, 0);
    PopulatedAssocsUnique(fileItems, r2.0, r1.0, t.categoryItems, r2.1);
    UniquePairsChain(t.categoryItems, p.assocs, 0);
    if p.outcome == Completed {
      PrunedDeletes(p.assocs, p.items, p.categories, fileItems, p.tables);
      PrunedKeepsUniquePairs(p.assocs, p.items, p.categories, fileItems, p.tables);
    }
  }

  /** An association linking the ids a file item resolves to survives the deletion step. */
  lemma PrunedKeepsResolved(known: seq<AssocRow>, items: seq<NamedRow>, categories: seq<NamedRow>,
                            fileItems: seq<Item>, t: Tables, a: AssocRow, i: Item)
    requires DistinctIds(categories) && DistinctIds(items) && DistinctAssocIds(known)
    requires a in known && a in t.categoryItems && i in fileItems
    requires Resolve(i, categories, items) == Some((a.categoryId, a.itemId))
    ensures a in Pruned(known, items, categories, fileItems, t).categoryItems
  {
    ResolveRoundTrip(i, categories, items, a);
    assert (i.categoryName, i.name) in FilePairs(fileItems);
    PrunedKeepsListed(known, items, categories, fileItems, t, a);
  }

  /** No association written by the association step is deleted by the deletion step. */
  lemma RunKeepsWrittenAssociations(fileCategories: seq<Category>, fileItems: seq<Item>, t: Tables)
    requires Valid(t)
    ensures var p, r := Populate(fileCategories, fileItems, t), Run(fileCategories, fileItems, t);
      r.0 == Completed ==>
        forall a :: a in p.assocs && a !in t.categoryItems ==> a in r.1.categoryItems
  {
    var p := Populate(fileCategories, fileItems, t);
    PopulateFacts(fileCategories, fileItems, t);
    PopulateAppendsFilePairs(fileCategories, fileItems, t);
    if p.outcome == Completed {
      var n := |t.categoryItems|;
      assert forall j :: 0 <= j < n ==> p.assocs[j] == p.assocs[..n][j];
      forall a | a in p.assocs && a !in t.categoryItems
        ensures a in Pruned(p.assocs, p.items, p.categories, fileItems, p.tables).categoryItems
      {
        var k :| 0 <= k < |p.assocs| && p.assocs[k] == a;
        var i :| i in fileItems && Resolve(i, p.categories, p.items) == Some((a.categoryId, a.itemId));
        PrunedKeepsResolved(p.assocs, p.items, p.categories, fileItems, p.tables, a, i);
      }
    }
  }

  /** An association of the store that stands for a pair the file lists is kept,
      row and id unchanged, by a completed run. */
  lemma RunKeepsListed(fileCategories: seq<Category>, fileItems: seq<Item>, t: Tables, a: AssocRow)
    requires Valid(t) && a in t.categoryItems
    requires ResolvedPair(a, t.categories, t.items).Some?
    requires ResolvedPair(a, t.categories, t.items).value in FilePairs(fileItems)
    ensures Run(fileCategories, fileItems, t).0 == Completed ==> a in Run(fileCategories, fileItems, t).1.categoryItems
  {
    var p := Populate(fileCategories, fileItems, t);
    PopulateFacts(fileCategories, fileItems, t);
    if p.outcome == Completed {
      ResolvedPairStable(a, p.categories, p.items, t);
      assert a in p.assocs by {
        assert p.assocs[..|t.categoryItems|] == t.categoryItems;
      }
      PrunedKeepsListed(p.assocs, p.items, p.categories, fileItems, p.tables, a);
    }
  }

  /** Orphan safety: an association of the store whose category id or item id
      matches no stored row is gone, by id, after a completed run. */
  lemma RunDeletesOrphans(fileCategories: seq<Category>, fileItems: seq<Item>, t: Tables, a: AssocRow)
    requires Valid(t) && a in t.categoryItems
    requires ResolvedPair(a, t.categories, t.items).None?
    ensures Run(fileCategories, fileItems, t).0 == Completed ==>
      forall b :: b in Run(fileCategories, fileItems, t).1.categoryItems ==> b.id != a.id
  {
    var p := Populate(fileCategories, fileItems, t);
    PopulateFacts(fileCategories, fileItems, t);
    if p.outcome == Completed {
      ResolvedPairStable(a, p.categories, p.items, t);
      assert a in p.assocs by {
        assert p.assocs[..|t.categoryItems|] == t.categoryItems;
      }
      PrunedDeletesOrphans(p.assocs, p.items, p.categories, fileItems, p.tables, a);
    }
  }
}
