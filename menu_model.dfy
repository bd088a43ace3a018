/** Records of the menu file, rows of the three store tables, and the lookups
    the menu import performs over in-memory row lists (the list comprehensions
    of menu_import.py). */
module MenuModel {

  datatype Option<T> = None | Some(value: T)

  /** A category record of the menu file. */
  datatype Category = Category(name: string)

  /** An item record of the menu file: its name and the category it is listed under. */
  datatype Item = Item(name: string, categoryName: string)

  /** A row of the `categories` table or of the `items` table (columns id and name). */
  datatype NamedRow = NamedRow(id: nat, name: string)

  /** A row of the `category_items` table. */
  datatype AssocRow = AssocRow(id: nat, categoryId: nat, itemId: nat)

  /** How a run ends: all four steps done, or stopped by the exception raised when
      a file item's category or item name matches no row (the `[0]` of an empty list). */
  datatype Outcome = Completed | Aborted(unresolved: Item)

  /** The elements of `s` that satisfy `p`, in their order: a filtering list comprehension. */
  function Filter<T(!new)>(s: seq<T>, p: T -> bool): (r: seq<T>)
    ensures |r| <= |s|
    ensures forall x :: x in r <==> x in s && p(x)
  {
    if s == [] then []
    else
      var init := s[..|s| - 1];
      assert s == init + [s[|s| - 1]];
      Filter(init, p) + (if p(s[|s| - 1]) then [s[|s| - 1]] else [])
  }

  lemma FilterAppend<T(!new)>(s: seq<T>, x: T, p: T -> bool)
    ensures Filter(s + [x], p) == Filter(s, p) + (if p(x) then [x] else [])
  {
    assert (s + [x])[..|s|] == s;
  }

  /** Rows whose name is `name`. */
  function Named(rows: seq<NamedRow>, name: string): seq<NamedRow>
  {
    Filter(rows, (r: NamedRow) => r.name == name)
  }

  /** Rows whose id is `id`. */
  function WithId(rows: seq<NamedRow>, id: nat): seq<NamedRow>
  {
    Filter(rows, (r: NamedRow) => r.id == id)
  }

  /** Associations linking `categoryId` to `itemId`. */
  function WithPair(rows: seq<AssocRow>, categoryId: nat, itemId: nat): seq<AssocRow>
  {
    Filter(rows, (a: AssocRow) => a.itemId == itemId && a.categoryId == categoryId)
  }

  /** File items named `name` that are listed under `categoryName`. */
  function Listed(fileItems: seq<Item>, name: string, categoryName: string): seq<Item>
  {
    Filter(fileItems, (i: Item) => i.name == name && i.categoryName == categoryName)
  }

  lemma NamedAppend(rows: seq<NamedRow>, x: NamedRow, name: string)
    ensures Named(rows + [x], name) == Named(rows, name) + (if x.name == name then [x] else [])
  {
    FilterAppend(rows, x, (r: NamedRow) => r.name == name);
  }

  lemma WithPairAppend(rows: seq<AssocRow>, x: AssocRow, categoryId: nat, itemId: nat)
    ensures WithPair(rows + [x], categoryId, itemId)
         == WithPair(rows, categoryId, itemId) + (if x.categoryId == categoryId && x.itemId == itemId then [x] else [])
  {
    FilterAppend(rows, x, (a: AssocRow) => a.itemId == itemId && a.categoryId == categoryId);
  }

  /** A name carried by a row of a list stays carried when the list grows. */
  lemma NamedMonotone(small: seq<NamedRow>, big: seq<NamedRow>, name: string)
    requires forall x :: x in small ==> x in big
    ensures Named(small, name) != [] ==> Named(big, name) != []
  {
    if Named(small, name) != [] {
      var x := Named(small, name)[0];
      assert x in Named(small, name);
      assert x in Named(big, name);
    }
  }

  /** `_is_new_category`: no existing row carries the category's name. */
  function IsNewCategory(category: Category, existing: seq<NamedRow>): (r: bool)
    ensures r <==> forall row :: row in existing ==> row.name != category.name
  {
    var matched := Named(existing, category.name);
    assert matched != [] ==> matched[0] in matched;
    matched == []
  }

  /** `_is_new_item`: no existing row carries the item's name; the category the
      item is listed under plays no part. */
  function IsNewItem(item: Item, existing: seq<NamedRow>): (r: bool)
    ensures r <==> forall row :: row in existing ==> row.name != item.name
  {
    var matched := Named(existing, item.name);
    assert matched != [] ==> matched[0] in matched;
    matched == []
  }

  /** The novelty test of `create_category_item`: the pair is new when the list is
      empty or no association in it links the same category id and item id. */
  function IsNewAssociation(existing: seq<AssocRow>, categoryId: nat, itemId: nat): (r: bool)
    ensures existing == [] ==> r
    ensures r <==> forall a :: a in existing ==> !(a.categoryId == categoryId && a.itemId == itemId)
  {
    var matched := WithPair(existing, categoryId, itemId);
    assert matched != [] ==> matched[0] in matched;
    existing == [] || matched == []
  }

  /** The ids a file item stands for: the first category row named like its
      category and the first item row named like it, when both exist. */
  function Resolve(item: Item, categories: seq<NamedRow>, items: seq<NamedRow>): (r: Option<(nat, nat)>)
    ensures r.None? <==> ((forall c :: c in categories ==> c.name != item.categoryName)
                       || (forall i :: i in items ==> i.name != item.name))
    ensures r.Some? ==> exists c, i :: c in categories && c.name == item.categoryName
                                    && i in items && i.name == item.name && r.value == (c.id, i.id)
  {
    var mc := Named(categories, item.categoryName);
    var mi := Named(items, item.name);
    if mc != [] && mi != [] then
      assert mc[0] in mc && mi[0] in mi;
      Some((mc[0].id, mi[0].id))
    else None
  }

  /** The (category name, item name) pair an association stands for, its ids looked
      up in the in-memory rows (first match); None when either id matches no row. */
  function ResolvedPair(a: AssocRow, categories: seq<NamedRow>, items: seq<NamedRow>): (r: Option<(string, string)>)
    ensures r.None? <==> ((forall c :: c in categories ==> c.id != a.categoryId)
                       || (forall i :: i in items ==> i.id != a.itemId))
    ensures r.Some? ==> exists c, i :: c in categories && c.id == a.categoryId
                                    && i in items && i.id == a.itemId && r.value == (c.name, i.name)
  {
    var mc := WithId(categories, a.categoryId);
    var mi := WithId(items, a.itemId);
    if mc != [] && mi != [] then
      assert mc[0] in mc && mi[0] in mi;
      Some((mc[0].name, mi[0].name))
    else None
  }

  /** The (category name, item name) pairs the file's item records name. */
  function FilePairs(fileItems: seq<Item>): set<(string, string)>
  {
    set i | i in fileItems :: (i.categoryName, i.name)
  }

  /** The deletion test of `delete_category_items`: an association is deleted when
      one of its ids matches no known row, or when no file item has its item name
      and its category name. */
  function IsStale(a: AssocRow, categories: seq<NamedRow>, items: seq<NamedRow>, fileItems: seq<Item>): (delete: bool)
    ensures (forall c :: c in categories ==> c.id != a.categoryId) ==> delete
    ensures (forall i :: i in items ==> i.id != a.itemId) ==> delete
    ensures ResolvedPair(a, categories, items).Some? ==>
              (delete <==> ResolvedPair(a, categories, items).value !in FilePairs(fileItems))
  {
    var matchedCategory := WithId(categories, a.categoryId);
    var matchedItem := WithId(items, a.itemId);
    if matchedCategory != [] && matchedItem != [] then
      assert matchedCategory[0] in matchedCategory && matchedItem[0] in matchedItem;
      var categoryName := matchedCategory[0].name;
      var itemName := matchedItem[0].name;
      var matched := Listed(fileItems, itemName, categoryName);
      assert (categoryName, itemName) in FilePairs(fileItems) ==> matched != [] by {
        if (categoryName, itemName) in FilePairs(fileItems) {
          var i :| i in fileItems && (i.categoryName, i.name) == (categoryName, itemName);
          assert i in matched;
        }
      }
      assert matched != [] ==> (categoryName, itemName) in FilePairs(fileItems) by {
        if matched != [] {
          assert matched[0] in matched;
        }
      }
      matched == []
    else true
  }

  /** Rows appended with other ids do not change what an id lookup finds. */
  lemma {:induction false} WithIdIgnoresOthers(rows: seq<NamedRow>, extra: seq<NamedRow>, id: nat)
    requires forall x :: x in extra ==> x.id != id
    ensures WithId(rows + extra, id) == WithId(rows, id)
  {
    if extra == [] {
      assert rows + extra == rows;
    } else {
      var init, last := extra[..|extra| - 1], extra[|extra| - 1];
      assert extra == init + [last];
      assert forall x :: x in init ==> x in extra;
      WithIdIgnoresOthers(rows, init, id);
      assert rows + extra == (rows + init) + [last];
      FilterAppend(rows + init, last, (r: NamedRow) => r.id == id);
    }
  }

  /** Distinct rows of a table have distinct ids. */
  predicate DistinctIds(rows: seq<NamedRow>)
  {
    forall x, y :: x in rows && y in rows && x.id == y.id ==> x == y
  }

  predicate DistinctAssocIds(rows: seq<AssocRow>)
  {
    forall x, y :: x in rows && y in rows && x.id == y.id ==> x == y
  }

  /** From position `from` on, no row carries the name of an earlier row. */
  predicate UniqueNamesFrom(rows: seq<NamedRow>, from: nat)
  {
    forall j, k :: 0 <= j < k < |rows| && from <= k ==> rows[j].name != rows[k].name
  }

  /** From position `from` on, no association links the pair an earlier one links. */
  predicate UniquePairsFrom(rows: seq<AssocRow>, from: nat)
  {
    forall j, k :: 0 <= j < k < |rows| && from <= k ==>
      (rows[j].categoryId, rows[j].itemId) != (rows[k].categoryId, rows[k].itemId)
  }

  /** No two rows of a table carry the same name. */
  predicate UniqueNames(rows: seq<NamedRow>)
  {
    UniqueNamesFrom(rows, 0)
  }

  /** No two associations link the same (category id, item id) pair. */
  predicate UniquePairs(rows: seq<AssocRow>)
  {
    UniquePairsFrom(rows, 0)
  }

  /** Uniqueness of the rows of `small` from `from` on, and of the rows of `big`
      past `small`, give uniqueness of the rows of `big` from `from` on. */
  lemma UniqueNamesChain(small: seq<NamedRow>, big: seq<NamedRow>, from: nat)
    requires from <= |small| <= |big| && big[..|small|] == small
    requires UniqueNamesFrom(small, from) && UniqueNamesFrom(big, |small|)
    ensures UniqueNamesFrom(big, from)
  {
    forall j, k | 0 <= j < k < |big| && from <= k && k < |small|
      ensures big[j].name != big[k].name
    {
      assert big[j] == small[j] && big[k] == small[k];
    }
  }

  lemma UniquePairsChain(small: seq<AssocRow>, big: seq<AssocRow>, from: nat)
    requires from <= |small| <= |big| && big[..|small|] == small
    requires UniquePairsFrom(small, from) && UniquePairsFrom(big, |small|)
    ensures UniquePairsFrom(big, from)
  {
    forall j, k | 0 <= j < k < |big| && from <= k && k < |small|
      ensures (big[j].categoryId, big[j].itemId) != (big[k].categoryId, big[k].itemId)
    {
      assert big[j] == small[j] && big[k] == small[k];
    }
  }

  /** Filtering keeps associations' pairs unique. */
  lemma {:induction false} FilterKeepsUniquePairs(s: seq<AssocRow>, p: AssocRow -> bool)
    requires UniquePairs(s)
    ensures UniquePairs(Filter(s, p))
  {
    if s != [] {
      var init, last := s[..|s| - 1], s[|s| - 1];
      assert s == init + [last];
      assert UniquePairs(init) by {
        forall j, k | 0 <= j < k < |init|
          ensures (init[j].categoryId, init[j].itemId) != (init[k].categoryId, init[k].itemId)
        {
          assert init[j] == s[j] && init[k] == s[k];
        }
      }
      FilterKeepsUniquePairs(init, p);
      FilterAppend(init, last, p);
      var f := Filter(init, p);
      if p(last) {
        forall j | 0 <= j < |f|
          ensures (f[j].categoryId, f[j].itemId) != (last.categoryId, last.itemId)
        {
          assert f[j] in init;
          var i :| 0 <= i < |init| && init[i] == f[j];
          assert s[i] == init[i];
        }
        assert Filter(s, p) == f + [last];
      }
    }
  }

  /** With distinct ids, looking a row up by name and then by its id finds it again. */
  lemma ByIdAfterByName(rows: seq<NamedRow>, name: string)
    requires DistinctIds(rows)
    requires Named(rows, name) != []
    ensures WithId(rows, Named(rows, name)[0].id) != []
    ensures WithId(rows, Named(rows, name)[0].id)[0] == Named(rows, name)[0]
  {
    var r := Named(rows, name)[0];
    assert r in Named(rows, name);
    assert r in WithId(rows, r.id);
    var m := WithId(rows, r.id);
    assert m[0] in m;
  }

  /** Looking up again the ids a file item resolves to gives back the item's
      category name and name. */
  lemma ResolveRoundTrip(item: Item, categories: seq<NamedRow>, items: seq<NamedRow>, a: AssocRow)
    requires DistinctIds(categories) && DistinctIds(items)
    requires Resolve(item, categories, items).Some?
    requires (a.categoryId, a.itemId) == Resolve(item, categories, items).value
    ensures ResolvedPair(a, categories, items) == Some((item.categoryName, item.name))
  {
    var mc := Named(categories, item.categoryName);
    var mi := Named(items, item.name);
    assert mc[0] in mc && mi[0] in mi;
    ByIdAfterByName(categories, item.categoryName);
    ByIdAfterByName(items, item.name);
  }
}
