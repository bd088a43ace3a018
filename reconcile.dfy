/** The four steps of `MenuImport.import_menu` as functions of the in-memory row
    lists and the store contents, each following its loop record by record, and
    what each step is proved to do. */
module Reconcile {
  import opened MenuModel
  import opened Store

  function CategoryNames(categories: seq<Category>): (names: seq<string>)
  {
    seq(|categories|, k requires 0 <= k < |categories| => categories[k].name)
  }

  function ItemNames(items: seq<Item>): (names: seq<string>)
  {
    seq(|items|, k requires 0 <= k < |items| => items[k].name)
  }

  /** One iteration of `populate_categories` (table Categories) or `populate_items`
      (table Items): a name no row of `known` carries is written to the table and
      read back by name, and the first row read back is appended to `known`. */
  function NameStep(table: NamedTable, name: string, known: seq<NamedRow>, t: Tables): (r: (seq<NamedRow>, Tables))
  {
    if Named(known, name) == [] then
      var t1 := InsertNamed(t, table, name);
      var readBack := Named(Rows(t1, table), name);
      (if readBack != [] then known + [readBack[0]] else known, t1)
    else (known, t)
  }

  /** The whole loop over the file names, in file order: the grown list and the store afterwards. */
  function PopulatedNames(table: NamedTable, names: seq<string>, known: seq<NamedRow>, t: Tables): (r: (seq<NamedRow>, Tables))
    decreases |names|
  {
    if names == [] then (known, t)
    else
      var step := NameStep(table, names[0], known, t);
      PopulatedNames(table, names[1..], step.0, step.1)
  }

  /** One iteration of `populate_category_items`: the category and the item are
      looked up by name (first match); None when either is missing, which raises.
      A (category id, item id) pair no association of `known` links is written,
      read back, and the first row read back appended to `known`. */
  function AssocStep(item: Item, items: seq<NamedRow>, categories: seq<NamedRow>,
                     known: seq<AssocRow>, t: Tables): (r: Option<(seq<AssocRow>, Tables)>)
  {
    var matchedCategory := Named(categories, item.categoryName);
    var matchedItem := Named(items, item.name);
    if matchedCategory == [] || matchedItem == [] then None
    else
      var categoryId, itemId := matchedCategory[0].id, matchedItem[0].id;
      if IsNewAssociation(known, categoryId, itemId) then
        var t1 := InsertAssociation(t, categoryId, itemId);
        var readBack := WithPair(t1.categoryItems, categoryId, itemId);
        Some((if readBack != [] then known + [readBack[0]] else known, t1))
      else Some((known, t))
  }

  /** The whole loop over the file items; it stops at the first item that raises. */
  function PopulatedAssocs(fileItems: seq<Item>, items: seq<NamedRow>, categories: seq<NamedRow>,
                           known: seq<AssocRow>, t: Tables): (r: (Outcome, seq<AssocRow>, Tables))
    decreases |fileItems|
  {
    if fileItems == [] then (Completed, known, t)
    else
      match AssocStep(fileItems[0], items, categories, known, t)
      case None => (Aborted(fileItems[0]), known, t)
      case Some(step) => PopulatedAssocs(fileItems[1..], items, categories, step.0, step.1)
  }

  /** `delete_category_items`: every association of `known` that is stale is
      deleted from the store by its id. */
  function Pruned(known: seq<AssocRow>, items: seq<NamedRow>, categories: seq<NamedRow>,
                  fileItems: seq<Item>, t: Tables): (t': Tables)
    decreases |known|
  {
    if known == [] then t
    else
      Pruned(known[1..], items, categories, fileItems,
             if IsStale(known[0], categories, items, fileItems) then DeleteAssociation(t, known[0].id) else t)
  }

  /** The ids of the stale associations of `known`. */
  function StaleIds(known: seq<AssocRow>, items: seq<NamedRow>, categories: seq<NamedRow>, fileItems: seq<Item>): set<nat>
  {
    set a | a in known && IsStale(a, categories, items, fileItems) :: a.id
  }

  /** The in-memory lists, the outcome and the store after the three populate steps. */
  datatype Populated = Populated(categories: seq<NamedRow>, items: seq<NamedRow>, outcome: Outcome,
                                 assocs: seq<AssocRow>, tables: Tables)

  /** The first three steps of `import_menu`: the three tables are loaded once,
      then categories, items and associations are populated in that order, each
      step seeing the lists the previous ones grew. */
  function Populate(fileCategories: seq<Category>, fileItems: seq<Item>, t: Tables): (p: Populated)
  {
    var (categories, t1) := PopulatedNames(Categories, CategoryNames(fileCategories), t.categories, t);
    var (items, t2) := PopulatedNames(Items, ItemNames(fileItems), t.items, t1);
    var (outcome, assocs, t3) := PopulatedAssocs(fileItems, items, categories, t.categoryItems, t2);
    Populated(categories, items, outcome, assocs, t3)
  }

  /** `import_menu` once the menu file has been read: the populate steps, then,
      unless the association step raised, the deletion step over the grown lists. */
  function Run(fileCategories: seq<Category>, fileItems: seq<Item>, t: Tables): (r: (Outcome, Tables))
  {
    var p := Populate(fileCategories, fileItems, t);
    if p.outcome.Aborted? then (p.outcome, p.tables)
    else (Completed, Pruned(p.assocs, p.items, p.categories, fileItems, p.tables))
  }

  // ---------------------------------------------------------------------------
  // populate_categories / populate_items

  /** One iteration: the list grows by at most the row read back, which carries
      the name, and afterwards some row of it carries the name. */
  lemma NameStepList(table: NamedTable, name: string, known: seq<NamedRow>, t: Tables)
    ensures var r := NameStep(table, name, known, t);
      && |known| <= |r.0| <= |known| + 1 && r.0[..|known|] == known
      && (forall k :: |known| <= k < |r.0| ==> r.0[k].name == name)
      && Named(r.0, name) != []
  {
    var r := NameStep(table, name, known, t);
    if Named(known, name) == [] {
      var row := NamedRow(t.nextId, name);
      var t1 := InsertNamed(t, table, name);
      assert Rows(t1, table) == Rows(t, table) + [row];
      NamedAppend(Rows(t, table), row, name);
      var readBack := Named(Rows(t1, table), name);
      assert readBack == Named(Rows(t, table), name) + [row];
      var x := readBack[0];
      assert x in readBack;
      assert r.0 == known + [x];
      NamedAppend(known, x, name);
    } else {
      var x := Named(known, name)[0];
      assert x in Named(known, name);
    }
  }

  /** One iteration writes a name new to `known` once, with the next id, to the
      step's own table; a known name writes nothing. */
  lemma NameStepTables(table: NamedTable, name: string, known: seq<NamedRow>, t: Tables)
    ensures var r := NameStep(table, name, known, t);
      && Rows(r.1, table) == Rows(t, table) + (if Named(known, name) == [] then [NamedRow(t.nextId, name)] else [])
      && r.1.nextId == t.nextId + (|Rows(r.1, table)| - |Rows(t, table)|)
      && (table == Categories ==> r.1.items == t.items)
      && (table == Items ==> r.1.categories == t.categories)
      && r.1.categoryItems == t.categoryItems
  {
  }

  /** The list only grows at its end: the rows present beforehand are unchanged. */
  lemma {:induction false} PopulatedNamesExtends(table: NamedTable, names: seq<string>, known: seq<NamedRow>, t: Tables)
    ensures var r := PopulatedNames(table, names, known, t);
      |known| <= |r.0| && r.0[..|known|] == known
  {
    if names != [] {
      var step := NameStep(table, names[0], known, t);
      NameStepList(table, names[0], known, t);
      PopulatedNamesExtends(table, names[1..], step.0, step.1);
      var r := PopulatedNames(table, names[1..], step.0, step.1);
      assert r.0[..|known|] == r.0[..|step.0|][..|known|];
    }
  }

  /** Every file name ends up carried by a row of the list. */
  lemma {:induction false} PopulatedNamesCovers(table: NamedTable, names: seq<string>, known: seq<NamedRow>, t: Tables)
    ensures var r := PopulatedNames(table, names, known, t);
      forall n :: n in names ==> Named(r.0, n) != []
  {
    if names != [] {
      var n := names[0];
      var step := NameStep(table, n, known, t);
      NameStepList(table, n, known, t);
      PopulatedNamesCovers(table, names[1..], step.0, step.1);
      PopulatedNamesExtends(table, names[1..], step.0, step.1);
      var r := PopulatedNames(table, names[1..], step.0, step.1);
      var x := Named(step.0, n)[0];
      assert x in Named(step.0, n);
      assert x in r.0[..|step.0|];
      assert x in Named(r.0, n);
      assert forall m :: m in names ==> m == n || m in names[1..];
    }
  }

  /** Every row appended to the list carries a file name. */
  lemma {:induction false} PopulatedNamesAppendsFileNames(table: NamedTable, names: seq<string>, known: seq<NamedRow>, t: Tables)
    ensures var r := PopulatedNames(table, names, known, t);
      forall k :: |known| <= k < |r.0| ==> r.0[k].name in names
  {
    if names != [] {
      var step := NameStep(table, names[0], known, t);
      NameStepList(table, names[0], known, t);
      PopulatedNamesAppendsFileNames(table, names[1..], step.0, step.1);
      PopulatedNamesExtends(table, names[1..], step.0, step.1);
      var r := PopulatedNames(table, names[1..], step.0, step.1);
      forall k | |known| <= k < |r.0|
        ensures r.0[k].name in names
      {
        if k < |step.0| {
          assert r.0[k] == r.0[..|step.0|][k] == step.0[k];
        } else {
          assert r.0[k].name in names[1..];
        }
      }
    }
  }

  /** The step writes to its own table only. */
  lemma {:induction false} PopulatedNamesFrame(table: NamedTable, names: seq<string>, known: seq<NamedRow>, t: Tables)
    ensures var r := PopulatedNames(table, names, known, t);
      && (table == Categories ==> r.1.items == t.items)
      && (table == Items ==> r.1.categories == t.categories)
      && r.1.categoryItems == t.categoryItems
  {
    if names != [] {
      var step := NameStep(table, names[0], known, t);
      NameStepTables(table, names[0], known, t);
      PopulatedNamesFrame(table, names[1..], step.0, step.1);
    }
  }

  /** `after` is `before` followed by rows whose ids count up from `firstId`. */
  predicate FreshlyAppended(before: seq<NamedRow>, after: seq<NamedRow>, firstId: nat)
  {
    && |before| <= |after| && after[..|before|] == before
    && (forall k :: |before| <= k < |after| ==> after[k].id == firstId + (k - |before|))
  }

  /** Two runs of consecutive fresh ids, the second starting where the first
      ends, make one run. */
  lemma FreshlyAppendedChain(a: seq<NamedRow>, b: seq<NamedRow>, c: seq<NamedRow>, firstId: nat, nextId: nat)
    requires FreshlyAppended(a, b, firstId) && FreshlyAppended(b, c, nextId)
    requires nextId == firstId + (|b| - |a|)
    ensures FreshlyAppended(a, c, firstId)
  {
    assert c[..|a|] == c[..|b|][..|a|];
    forall k | |a| <= k < |c|
      ensures c[k].id == firstId + (k - |a|)
    {
      if k < |b| {
        assert c[k] == c[..|b|][k] == b[k];
      }
    }
  }

  /** The store's table only grows at its end, by rows with consecutive fresh ids. */
  lemma {:induction false} PopulatedNamesWrites(table: NamedTable, names: seq<string>, known: seq<NamedRow>, t: Tables)
    ensures var r := PopulatedNames(table, names, known, t);
      && FreshlyAppended(Rows(t, table), Rows(r.1, table), t.nextId)
      && r.1.nextId == t.nextId + (|Rows(r.1, table)| - |Rows(t, table)|)
  {
    if names != [] {
      var step := NameStep(table, names[0], known, t);
      NameStepTables(table, names[0], known, t);
      PopulatedNamesWrites(table, names[1..], step.0, step.1);
      var before, mid := Rows(t, table), Rows(step.1, table);
      var after := Rows(PopulatedNames(table, names[1..], step.0, step.1).1, table);
      assert FreshlyAppended(before, mid, t.nextId) by {
        assert mid[..|before|] == before;
      }
      FreshlyAppendedChain(before, mid, after, t.nextId, step.1.nextId);
    } else {
      assert Rows(t, table)[..|Rows(t, table)|] == Rows(t, table);
    }
  }

  /** The rows of `after` from position `from` on carry names of `names` that no
      row of `known` carries. */
  predicate NewNames(names: seq<string>, known: seq<NamedRow>, after: seq<NamedRow>, from: nat)
  {
    forall k :: from <= k < |after| ==> after[k].name in names && Named(known, after[k].name) == []
  }

  /** The rows of `after` from position `from` on carry pairwise distinct names. */
  predicate DistinctNamesFrom(after: seq<NamedRow>, from: nat)
  {
    forall j, k :: from <= j < k < |after| ==> after[j].name != after[k].name
  }

  /** A write of the first name, when the list did not carry it, followed by
      writes of later names new to a larger list, writes only names new to the
      list. */
  lemma NewNamesAfterOneWrite(before: seq<NamedRow>, extra: seq<NamedRow>, after: seq<NamedRow>,
                              names: seq<string>, known: seq<NamedRow>, grown: seq<NamedRow>)
    requires names != []
    requires |extra| <= 1 && forall x :: x in extra ==> x.name == names[0] && Named(known, names[0]) == []
    requires |before + extra| <= |after| && after[..|before + extra|] == before + extra
    requires forall x :: x in known ==> x in grown
    requires NewNames(names[1..], grown, after, |before + extra|)
    ensures NewNames(names, known, after, |before|)
  {
    var mid := before + extra;
    forall k | |before| <= k < |after|
      ensures after[k].name in names && Named(known, after[k].name) == []
    {
      if k < |mid| {
        assert after[k] == mid[k] == extra[k - |before|];
      } else {
        NamedMonotone(known, grown, after[k].name);
      }
    }
  }

  /** Every row written carries a file name that no row of `known` carried. */
  lemma {:induction false} PopulatedNamesWritesNew(table: NamedTable, names: seq<string>, known: seq<NamedRow>, t: Tables)
    ensures NewNames(names, known, Rows(PopulatedNames(table, names, known, t).1, table), |Rows(t, table)|)
  {
    if names != [] {
      var n := names[0];
      var step := NameStep(table, n, known, t);
      NameStepList(table, n, known, t);
      NameStepTables(table, n, known, t);
      PopulatedNamesWrites(table, names[1..], step.0, step.1);
      PopulatedNamesWritesNew(table, names[1..], step.0, step.1);
      var before := Rows(t, table);
      var extra := if Named(known, n) == [] then [NamedRow(t.nextId, n)] else [];
      var after := Rows(PopulatedNames(table, names[1..], step.0, step.1).1, table);
      assert FreshlyAppended(before + extra, after, step.1.nextId);
      assert forall x :: x in known ==> x in step.0 by {
        assert step.0[..|known|] == known;
      }
      NewNamesAfterOneWrite(before, extra, after, names, known, step.0);
    }
  }

  /** One write of a name the later rows do not carry keeps the written rows'
      names pairwise distinct. */
  lemma DistinctAfterOneWrite(before: seq<NamedRow>, extra: seq<NamedRow>, after: seq<NamedRow>,
                              name: string, known: seq<NamedRow>)
    requires |extra| <= 1 && forall x :: x in extra ==> x.name == name
    requires |before + extra| <= |after| && after[..|before + extra|] == before + extra
    requires Named(known, name) != []
    requires forall k :: |before + extra| <= k < |after| ==> Named(known, after[k].name) == []
    requires DistinctNamesFrom(after, |before + extra|)
    ensures DistinctNamesFrom(after, |before|)
  {
    var mid := before + extra;
    forall j, k | |before| <= j < k < |after|
      ensures after[j].name != after[k].name
    {
      if j < |mid| {
        assert after[j] == mid[j] == extra[j - |before|];
        assert Named(known, after[k].name) == [];
      }
    }
  }

  /** No duplicate creation: the rows written carry pairwise distinct names, so
      two file records with the same name cause at most one write. */
  lemma {:induction false} PopulatedNamesWritesOnce(table: NamedTable, names: seq<string>, known: seq<NamedRow>, t: Tables)
    ensures DistinctNamesFrom(Rows(PopulatedNames(table, names, known, t).1, table), |Rows(t, table)|)
  {
    if names != [] {
      var n := names[0];
      var step := NameStep(table, n, known, t);
      NameStepList(table, n, known, t);
      NameStepTables(table, n, known, t);
      PopulatedNamesWrites(table, names[1..], step.0, step.1);
      PopulatedNamesWritesNew(table, names[1..], step.0, step.1);
      PopulatedNamesWritesOnce(table, names[1..], step.0, step.1);
      var before := Rows(t, table);
      var extra := if Named(known, n) == [] then [NamedRow(t.nextId, n)] else [];
      var after := Rows(PopulatedNames(table, names[1..], step.0, step.1).1, table);
      assert FreshlyAppended(before + extra, after, step.1.nextId);
      assert NewNames(names[1..], step.0, after, |before + extra|);
      DistinctAfterOneWrite(before, extra, after, n, step.0);
    }
  }

  /** When `known` is the table's own contents, it stays so: every row read back
      is the row just written. */
  lemma {:induction false} PopulatedNamesMirrors(table: NamedTable, names: seq<string>, known: seq<NamedRow>, t: Tables)
    requires Valid(t) && known == Rows(t, table)
    ensures var r := PopulatedNames(table, names, known, t);
      r.0 == Rows(r.1, table) && Valid(r.1)
  {
    if names != [] {
      var n := names[0];
      if Named(known, n) == [] {
        var row := NamedRow(t.nextId, n);
        assert Rows(InsertNamed(t, table, n), table) == known + [row];
        NamedAppend(known, row, n);
        InsertNamedValid(t, table, n);
        assert NameStep(table, n, known, t) == (known + [row], InsertNamed(t, table, n));
      }
      var step := NameStep(table, n, known, t);
      PopulatedNamesMirrors(table, names[1..], step.0, step.1);
    }
  }

  /** When every file name is already carried by a row of `known`, nothing is written. */
  lemma {:induction false} PopulatedNamesNoop(table: NamedTable, names: seq<string>, known: seq<NamedRow>, t: Tables)
    requires forall n :: n in names ==> Named(known, n) != []
    ensures PopulatedNames(table, names, known, t) == (known, t)
  {
    if names != [] {
      assert names[0] in names;
      assert forall m :: m in names[1..] ==> m in names;
      PopulatedNamesNoop(table, names[1..], known, t);
    }
  }

  /** No duplicate creation in the list: no row appended carries the name of an
      earlier row, whether it was in `known` or appended before it. */
  lemma {:induction false} PopulatedNamesUnique(table: NamedTable, names: seq<string>, known: seq<NamedRow>, t: Tables)
    ensures UniqueNamesFrom(PopulatedNames(table, names, known, t).0, |known|)
  {
    if names != [] {
      var n := names[0];
      var step := NameStep(table, n, known, t);
      NameStepList(table, n, known, t);
      PopulatedNamesUnique(table, names[1..], step.0, step.1);
      PopulatedNamesExtends(table, names[1..], step.0, step.1);
      forall j, k | 0 <= j < k < |step.0| && |known| <= k
        ensures step.0[j].name != step.0[k].name
      {
        assert Named(known, n) == [];
        assert step.0[j] == known[j];
        assert known[j] !in Named(known, n);
      }
      UniqueNamesChain(step.0, PopulatedNames(table, names[1..], step.0, step.1).0, |known|);
    }
  }

  // ---------------------------------------------------------------------------
  // populate_category_items

  /** One iteration: it raises exactly when the file item does not resolve;
      otherwise the list grows by at most the row read back, which links the ids
      the item resolves to, a link is then present, and only the association
      table changes. */
  lemma AssocStepFacts(item: Item, items: seq<NamedRow>, categories: seq<NamedRow>, known: seq<AssocRow>, t: Tables)
    ensures var r := AssocStep(item, items, categories, known, t);
      && (r.None? <==> Resolve(item, categories, items).None?)
      && (r.Some? ==>
            var ids := Resolve(item, categories, items).value;
            && |known| <= |r.value.0| <= |known| + 1 && r.value.0[..|known|] == known
            && (forall k :: |known| <= k < |r.value.0| ==>
                  (r.value.0[k].categoryId, r.value.0[k].itemId) == ids)
            && WithPair(r.value.0, ids.0, ids.1) != []
            && r.value.1.categories == t.categories && r.value.1.items == t.items)
  {
    var mc := Named(categories, item.categoryName);
    var mi := Named(items, item.name);
    if mc != [] && mi != [] {
      var categoryId, itemId := mc[0].id, mi[0].id;
      assert Resolve(item, categories, items) == Some((categoryId, itemId));
      var r := AssocStep(item, items, categories, known, t);
      if IsNewAssociation(known, categoryId, itemId) {
        var t1 := InsertAssociation(t, categoryId, itemId);
        var readBack := WithPair(t1.categoryItems, categoryId, itemId);
        assert AssocRow(t.nextId, categoryId, itemId) in t1.categoryItems;
        assert AssocRow(t.nextId, categoryId, itemId) in readBack;
        assert readBack[0] in readBack;
        assert r.value.0 == known + [readBack[0]];
        assert readBack[0] in WithPair(r.value.0, categoryId, itemId);
      } else {
        var a :| a in known && a.categoryId == categoryId && a.itemId == itemId;
        assert a in WithPair(known, categoryId, itemId);
      }
    }
  }

  /** The step completes exactly when every file item's category and item resolve;
      when it stops, it names a file item that does not resolve. */
  lemma {:induction false} PopulatedAssocsOutcome(fileItems: seq<Item>, items: seq<NamedRow>, categories: seq<NamedRow>,
                                                  known: seq<AssocRow>, t: Tables)
    ensures var r := PopulatedAssocs(fileItems, items, categories, known, t);
      && (r.0 == Completed <==> forall i :: i in fileItems ==> Resolve(i, categories, items).Some?)
      && (r.0.Aborted? ==> r.0.unresolved in fileItems && Resolve(r.0.unresolved, categories, items).None?)
  {
    if fileItems != [] {
      var item := fileItems[0];
      assert forall i :: i in fileItems <==> i == item || i in fileItems[1..];
      AssocStepFacts(item, items, categories, known, t);
      var step := AssocStep(item, items, categories, known, t);
      if step.Some? {
        PopulatedAssocsOutcome(fileItems[1..], items, categories, step.value.0, step.value.1);
      }
    }
  }

  /** The list only grows at its end, and the category and item tables are untouched. */
  lemma {:induction false} PopulatedAssocsExtends(fileItems: seq<Item>, items: seq<NamedRow>, categories: seq<NamedRow>,
                                                  known: seq<AssocRow>, t: Tables)
    ensures var r := PopulatedAssocs(fileItems, items, categories, known, t);
      && |known| <= |r.1| && r.1[..|known|] == known
      && r.2.categories == t.categories && r.2.items == t.items
  {
    if fileItems != [] {
      AssocStepFacts(fileItems[0], items, categories, known, t);
      var step := AssocStep(fileItems[0], items, categories, known, t);
      if step.Some? {
        var known1, t1 := step.value.0, step.value.1;
        PopulatedAssocsExtends(fileItems[1..], items, categories, known1, t1);
        var r := PopulatedAssocs(fileItems[1..], items, categories, known1, t1);
        assert r.1[..|known|] == r.1[..|known1|][..|known|];
      }
    }
  }

  /** The position of the first file item that does not resolve, or the number of
      file items when every one resolves. */
  function FirstUnresolved(fileItems: seq<Item>, items: seq<NamedRow>, categories: seq<NamedRow>): (n: nat)
    ensures n <= |fileItems|
    decreases |fileItems|
  {
    if fileItems == [] || Resolve(fileItems[0], categories, items).None? then 0
    else 1 + FirstUnresolved(fileItems[1..], items, categories)
  }

  /** Every file item before the first unresolved one resolves, and that one does not. */
  lemma {:induction false} FirstUnresolvedMeans(fileItems: seq<Item>, items: seq<NamedRow>, categories: seq<NamedRow>)
    ensures var n := FirstUnresolved(fileItems, items, categories);
      && (forall j :: 0 <= j < n ==> Resolve(fileItems[j], categories, items).Some?)
      && (n < |fileItems| ==> Resolve(fileItems[n], categories, items).None?)
  {
    if fileItems != [] && Resolve(fileItems[0], categories, items).Some? {
      FirstUnresolvedMeans(fileItems[1..], items, categories);
      var m := FirstUnresolved(fileItems[1..], items, categories);
      forall j | 1 <= j < m + 1
        ensures Resolve(fileItems[j], categories, items).Some?
      {
        assert fileItems[j] == fileItems[1..][j - 1];
      }
      assert m < |fileItems| - 1 ==> fileItems[m + 1] == fileItems[1..][m];
    }
  }

  /** Each of the first `n` file items resolves, and `rows` links its pair. */
  predicate LinkedUpTo(fileItems: seq<Item>, items: seq<NamedRow>, categories: seq<NamedRow>, rows: seq<AssocRow>, n: nat)
  {
    forall j :: 0 <= j < n && j < |fileItems| ==>
      Resolve(fileItems[j], categories, items).Some? &&
      WithPair(rows, Resolve(fileItems[j], categories, items).value.0, Resolve(fileItems[j], categories, items).value.1) != []
  }

  /** The step stops exactly at the first file item that does not resolve, and
      every file item before that one has its pair linked in the list. */
  lemma {:induction false} PopulatedAssocsStopsAt(fileItems: seq<Item>, items: seq<NamedRow>, categories: seq<NamedRow>,
                                                  known: seq<AssocRow>, t: Tables)
    ensures var r := PopulatedAssocs(fileItems, items, categories, known, t);
      var n := FirstUnresolved(fileItems, items, categories);
      && r.0 == (if n < |fileItems| then Aborted(fileItems[n]) else Completed)
      && LinkedUpTo(fileItems, items, categories, r.1, n)
  {
    if fileItems != [] {
      var item := fileItems[0];
      AssocStepFacts(item, items, categories, known, t);
      var step := AssocStep(item, items, categories, known, t);
      if step.Some? {
        var known1, t1 := step.value.0, step.value.1;
        PopulatedAssocsStopsAt(fileItems[1..], items, categories, known1, t1);
        PopulatedAssocsExtends(fileItems[1..], items, categories, known1, t1);
        var r := PopulatedAssocs(fileItems[1..], items, categories, known1, t1);
        var m := FirstUnresolved(fileItems[1..], items, categories);
        assert m < |fileItems[1..]| ==> fileItems[1..][m] == fileItems[m + 1];
        assert LinkedUpTo(fileItems[1..], items, categories, r.1, m);
        forall j | 0 <= j < m + 1 && j < |fileItems|
          ensures Resolve(fileItems[j], categories, items).Some? &&
            WithPair(r.1, Resolve(fileItems[j], categories, items).value.0, Resolve(fileItems[j], categories, items).value.1) != []
        {
          if j == 0 {
            var ids := Resolve(item, categories, items).value;
            var a := WithPair(known1, ids.0, ids.1)[0];
            assert a in WithPair(known1, ids.0, ids.1);
            assert a in r.1[..|known1|];
            assert a in WithPair(r.1, ids.0, ids.1);
          } else {
            assert fileItems[j] == fileItems[1..][j - 1];
          }
        }
        assert PopulatedAssocs(fileItems, items, categories, known, t) == r;
      }
    }
  }

  /** The list only grows at its end; on completion it holds, for every file item,
      an association linking the ids the item resolves to; the category and item
      tables are untouched. */
  lemma PopulatedAssocsGrows(fileItems: seq<Item>, items: seq<NamedRow>, categories: seq<NamedRow>,
                             known: seq<AssocRow>, t: Tables)
    ensures var r := PopulatedAssocs(fileItems, items, categories, known, t);
      && |known| <= |r.1| && r.1[..|known|] == known
      && r.2.categories == t.categories && r.2.items == t.items
      && (r.0 == Completed ==> forall i :: i in fileItems ==>
            Resolve(i, categories, items).Some? &&
            WithPair(r.1, Resolve(i, categories, items).value.0, Resolve(i, categories, items).value.1) != [])
  {
    PopulatedAssocsExtends(fileItems, items, categories, known, t);
    PopulatedAssocsStopsAt(fileItems, items, categories, known, t);
    var r := PopulatedAssocs(fileItems, items, categories, known, t);
    if r.0 == Completed {
      assert LinkedUpTo(fileItems, items, categories, r.1, |fileItems|);
      forall i | i in fileItems
        ensures Resolve(i, categories, items).Some? &&
          WithPair(r.1, Resolve(i, categories, items).value.0, Resolve(i, categories, items).value.1) != []
      {
        var k :| 0 <= k < |fileItems| && fileItems[k] == i;
      }
    }
  }

  /** When every file item before the first one that does not resolve already has
      its pair linked, nothing is written, and the step stops where it stopped. */
  lemma {:induction false} PopulatedAssocsNoopUntil(fileItems: seq<Item>, items: seq<NamedRow>, categories: seq<NamedRow>,
                                                    known: seq<AssocRow>, t: Tables)
    requires LinkedUpTo(fileItems, items, categories, known, FirstUnresolved(fileItems, items, categories))
    ensures var n := FirstUnresolved(fileItems, items, categories);
      PopulatedAssocs(fileItems, items, categories, known, t)
        == (if n < |fileItems| then Aborted(fileItems[n]) else Completed, known, t)
  {
    if fileItems != [] {
      var item := fileItems[0];
      AssocStepFacts(item, items, categories, known, t);
      if Resolve(item, categories, items).Some? {
        var ids := Resolve(item, categories, items).value;
        var a := WithPair(known, ids.0, ids.1)[0];
        assert a in WithPair(known, ids.0, ids.1);
        assert AssocStep(item, items, categories, known, t) == Some((known, t));
        var m := FirstUnresolved(fileItems[1..], items, categories);
        forall j | 0 <= j < m && j < |fileItems[1..]|
          ensures Resolve(fileItems[1..][j], categories, items).Some? &&
            WithPair(known, Resolve(fileItems[1..][j], categories, items).value.0,
                     Resolve(fileItems[1..][j], categories, items).value.1) != []
        {
          assert fileItems[1..][j] == fileItems[j + 1];
        }
        PopulatedAssocsNoopUntil(fileItems[1..], items, categories, known, t);
        assert m < |fileItems[1..]| ==> fileItems[1..][m] == fileItems[m + 1];
      }
    }
  }

  /** No duplicate creation of associations: no association appended links the
      pair of an earlier one, whether it was in `known` or appended before it. */
  lemma {:induction false} PopulatedAssocsUnique(fileItems: seq<Item>, items: seq<NamedRow>, categories: seq<NamedRow>,
                                                 known: seq<AssocRow>, t: Tables)
    ensures UniquePairsFrom(PopulatedAssocs(fileItems, items, categories, known, t).1, |known|)
  {
    if fileItems != [] {
      var item := fileItems[0];
      AssocStepFacts(item, items, categories, known, t);
      var step := AssocStep(item, items, categories, known, t);
      if step.Some? {
        var known1, t1 := step.value.0, step.value.1;
        PopulatedAssocsUnique(fileItems[1..], items, categories, known1, t1);
        PopulatedAssocsExtends(fileItems[1..], items, categories, known1, t1);
        var ids := Resolve(item, categories, items).value;
        forall j, k | 0 <= j < k < |known1| && |known| <= k
          ensures (known1[j].categoryId, known1[j].itemId) != (known1[k].categoryId, known1[k].itemId)
        {
          assert IsNewAssociation(known, ids.0, ids.1);
          assert known1[j] == known[j];
          assert known[j] in known;
        }
        UniquePairsChain(known1, PopulatedAssocs(fileItems[1..], items, categories, known1, t1).1, |known|);
      }
    }
  }

  /** Every association of `rows` from position `from` on links the ids some file
      item resolves to. */
  predicate LinksFileItems(fileItems: seq<Item>, items: seq<NamedRow>, categories: seq<NamedRow>,
                           rows: seq<AssocRow>, from: nat)
  {
    forall k :: from <= k < |rows| ==>
      exists i :: i in fileItems && Resolve(i, categories, items) == Some((rows[k].categoryId, rows[k].itemId))
  }

  /** Each association appended to the list links the ids some file item resolves to. */
  lemma {:induction false} PopulatedAssocsAppendsFilePairs(fileItems: seq<Item>, items: seq<NamedRow>, categories: seq<NamedRow>,
                                                           known: seq<AssocRow>, t: Tables)
    ensures LinksFileItems(fileItems, items, categories, PopulatedAssocs(fileItems, items, categories, known, t).1, |known|)
  {
    if fileItems != [] {
      var item := fileItems[0];
      AssocStepFacts(item, items, categories, known, t);
      var step := AssocStep(item, items, categories, known, t);
      if step.Some? {
        var known1, t1 := step.value.0, step.value.1;
        PopulatedAssocsAppendsFilePairs(fileItems[1..], items, categories, known1, t1);
        PopulatedAssocsExtends(fileItems[1..], items, categories, known1, t1);
        var r := PopulatedAssocs(fileItems[1..], items, categories, known1, t1);
        assert LinksFileItems(fileItems[1..], items, categories, r.1, |known1|);
        forall k | |known| <= k < |r.1|
          ensures exists i :: i in fileItems && Resolve(i, categories, items) == Some((r.1[k].categoryId, r.1[k].itemId))
        {
          if k < |known1| {
            assert r.1[k] == r.1[..|known1|][k] == known1[k];
            assert item in fileItems;
          } else {
            var i :| i in fileItems[1..] && Resolve(i, categories, items) == Some((r.1[k].categoryId, r.1[k].itemId));
            assert i in fileItems;
          }
        }
        assert PopulatedAssocs(fileItems, items, categories, known, t).1 == r.1;
      }
    }
  }

  /** One iteration keeps the list equal to the association table. */
  lemma AssocStepMirrors(item: Item, items: seq<NamedRow>, categories: seq<NamedRow>, known: seq<AssocRow>, t: Tables)
    requires Valid(t) && known == t.categoryItems && categories == t.categories && items == t.items
    ensures var r := AssocStep(item, items, categories, known, t);
      r.Some? ==> r.value.0 == r.value.1.categoryItems && Valid(r.value.1)
  {
    var mc := Named(categories, item.categoryName);
    var mi := Named(items, item.name);
    if mc != [] && mi != [] {
      var categoryId, itemId := mc[0].id, mi[0].id;
      assert mc[0] in mc && mi[0] in mi;
      if IsNewAssociation(known, categoryId, itemId) {
        var t1 := InsertAssociation(t, categoryId, itemId);
        var row := AssocRow(t.nextId, categoryId, itemId);
        WithPairAppend(known, row, categoryId, itemId);
        assert WithPair(t1.categoryItems, categoryId, itemId) == [row];
        InsertAssociationValid(t, categoryId, itemId);
      }
    }
  }

  /** When `known` is the association table's contents and the lookups go to the
      store's own tables, the list stays the table's contents: each row read back
      is the one just written. */
  lemma {:induction false} PopulatedAssocsMirrors(fileItems: seq<Item>, items: seq<NamedRow>, categories: seq<NamedRow>,
                                                  known: seq<AssocRow>, t: Tables)
    requires Valid(t) && known == t.categoryItems && categories == t.categories && items == t.items
    ensures var r := PopulatedAssocs(fileItems, items, categories, known, t);
      r.1 == r.2.categoryItems && Valid(r.2)
  {
    if fileItems != [] {
      var step := AssocStep(fileItems[0], items, categories, known, t);
      AssocStepMirrors(fileItems[0], items, categories, known, t);
      AssocStepFacts(fileItems[0], items, categories, known, t);
      if step.Some? {
        PopulatedAssocsMirrors(fileItems[1..], items, categories, step.value.0, step.value.1);
      }
    }
  }

  /** When every file item resolves and its pair is already linked, nothing is written. */
  lemma {:induction false} PopulatedAssocsNoop(fileItems: seq<Item>, items: seq<NamedRow>, categories: seq<NamedRow>,
                                               known: seq<AssocRow>, t: Tables)
    requires forall i :: i in fileItems ==>
      Resolve(i, categories, items).Some? &&
      WithPair(known, Resolve(i, categories, items).value.0, Resolve(i, categories, items).value.1) != []
    ensures PopulatedAssocs(fileItems, items, categories, known, t) == (Completed, known, t)
  {
    if fileItems != [] {
      var item := fileItems[0];
      assert item in fileItems;
      assert forall i :: i in fileItems[1..] ==> i in fileItems;
      var ids := Resolve(item, categories, items).value;
      var a := WithPair(known, ids.0, ids.1)[0];
      assert a in WithPair(known, ids.0, ids.1);
      assert AssocStep(item, items, categories, known, t) == Some((known, t));
      PopulatedAssocsNoop(fileItems[1..], items, categories, known, t);
    }
  }

  // ---------------------------------------------------------------------------
  // delete_category_items

  /** The deletion step removes exactly the associations that share an id with a
      stale association of `known`, and changes nothing else. */
  lemma {:induction false} PrunedDeletes(known: seq<AssocRow>, items: seq<NamedRow>, categories: seq<NamedRow>,
                                         fileItems: seq<Item>, t: Tables)
    ensures var t' := Pruned(known, items, categories, fileItems, t);
      && t'.categories == t.categories && t'.items == t.items && t'.nextId == t.nextId
      && (Valid(t) ==> Valid(t'))
      && (forall a :: a in t'.categoryItems <==>
            a in t.categoryItems && a.id !in StaleIds(known, items, categories, fileItems))
  {
    if known != [] {
      var x := known[0];
      var t1 := if IsStale(x, categories, items, fileItems) then DeleteAssociation(t, x.id) else t;
      PrunedDeletes(known[1..], items, categories, fileItems, t1);
      assert known == [x] + known[1..];
      var rest := StaleIds(known[1..], items, categories, fileItems);
      assert StaleIds(known, items, categories, fileItems)
          == rest + (if IsStale(x, categories, items, fileItems) then {x.id} else {});
    }
  }

  /** Orphan safety: an association of `known` whose category id or item id matches
      no row is deleted, whatever the file lists. */
  lemma PrunedDeletesOrphans(known: seq<AssocRow>, items: seq<NamedRow>, categories: seq<NamedRow>,
                             fileItems: seq<Item>, t: Tables, a: AssocRow)
    requires a in known
    requires (forall c :: c in categories ==> c.id != a.categoryId) || (forall i :: i in items ==> i.id != a.itemId)
    ensures forall b :: b in Pruned(known, items, categories, fileItems, t).categoryItems ==> b.id != a.id
  {
    PrunedDeletes(known, items, categories, fileItems, t);
    assert a.id in StaleIds(known, items, categories, fileItems);
  }

  /** An association of the table sharing its id with no stale association of
      `known` is left untouched (same row, same id). */
  lemma PrunedKeepsListed(known: seq<AssocRow>, items: seq<NamedRow>, categories: seq<NamedRow>,
                          fileItems: seq<Item>, t: Tables, a: AssocRow)
    requires a in t.categoryItems && DistinctAssocIds(known) && a in known
    requires ResolvedPair(a, categories, items).Some?
    requires ResolvedPair(a, categories, items).value in FilePairs(fileItems)
    ensures a in Pruned(known, items, categories, fileItems, t).categoryItems
  {
    PrunedDeletes(known, items, categories, fileItems, t);
    assert !IsStale(a, categories, items, fileItems);
    forall b | b in known && IsStale(b, categories, items, fileItems)
      ensures b.id != a.id
    {
    }
  }

  /** The deletion step keeps the associations' pairs unique. */
  lemma {:induction false} PrunedKeepsUniquePairs(known: seq<AssocRow>, items: seq<NamedRow>, categories: seq<NamedRow>,
                                                  fileItems: seq<Item>, t: Tables)
    requires UniquePairs(t.categoryItems)
    ensures UniquePairs(Pruned(known, items, categories, fileItems, t).categoryItems)
  {
    if known != [] {
      if IsStale(known[0], categories, items, fileItems) {
        DeleteAssociationUnique(t, known[0].id);
        PrunedKeepsUniquePairs(known[1..], items, categories, fileItems, DeleteAssociation(t, known[0].id));
      } else {
        PrunedKeepsUniquePairs(known[1..], items, categories, fileItems, t);
      }
    }
  }

  /** With no stale association in `known`, the deletion step changes nothing. */
  lemma {:induction false} PrunedNoop(known: seq<AssocRow>, items: seq<NamedRow>, categories: seq<NamedRow>,
                                      fileItems: seq<Item>, t: Tables)
    requires forall a :: a in known ==> !IsStale(a, categories, items, fileItems)
    ensures Pruned(known, items, categories, fileItems, t) == t
  {
    if known != [] {
      assert known[0] in known;
      assert forall a :: a in known[1..] ==> a in known;
      PrunedNoop(known[1..], items, categories, fileItems, t);
    }
  }
}
