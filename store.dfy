/** The relational store the menu import talks to, reduced to three tables held
    in memory and a counter that hands out fresh ids. The connection handling and
    the SQL text of db.py are not modelled; only what `get`, `write` and `delete`
    do to the rows. */
module Store {
  import opened MenuModel

  /** The two tables whose rows are (id, name). */
  datatype NamedTable = Categories | Items

  /** The contents of the store: the three tables and the next id to hand out. */
  datatype Tables = Tables(categories: seq<NamedRow>, items: seq<NamedRow>, categoryItems: seq<AssocRow>, nextId: nat)

  function Rows(t: Tables, table: NamedTable): seq<NamedRow>
  {
    match table
    case Categories => t.categories
    case Items => t.items
  }

  /** Ids are primary keys (distinct within a table) and were all handed out by the
      counter, including the ids an association refers to. */
  predicate Valid(t: Tables)
  {
    && DistinctIds(t.categories)
    && DistinctIds(t.items)
    && DistinctAssocIds(t.categoryItems)
    && (forall r :: r in t.categories ==> r.id < t.nextId)
    && (forall r :: r in t.items ==> r.id < t.nextId)
    && (forall a :: a in t.categoryItems ==> a.id < t.nextId && a.categoryId < t.nextId && a.itemId < t.nextId)
  }

  /** `write(table, {"name": name})`: a new row with a fresh id, appended to `table`. */
  function InsertNamed(t: Tables, table: NamedTable, name: string): (t': Tables)
  {
    match table
    case Categories => t.(categories := t.categories + [NamedRow(t.nextId, name)], nextId := t.nextId + 1)
    case Items => t.(items := t.items + [NamedRow(t.nextId, name)], nextId := t.nextId + 1)
  }

  /** `write("category_items", {"category_id": .., "item_id": ..})`. */
  function InsertAssociation(t: Tables, categoryId: nat, itemId: nat): (t': Tables)
  {
    t.(categoryItems := t.categoryItems + [AssocRow(t.nextId, categoryId, itemId)], nextId := t.nextId + 1)
  }

  /** `delete("category_items", {"id": id})`: removes every association with that id. */
  function DeleteAssociation(t: Tables, id: nat): (t': Tables)
    ensures forall a :: a in t'.categoryItems <==> a in t.categoryItems && a.id != id
  {
    t.(categoryItems := Filter(t.categoryItems, (a: AssocRow) => a.id != id))
  }

  /** Writing a name keeps the ids distinct and below the counter. */
  lemma InsertNamedValid(t: Tables, table: NamedTable, name: string)
    requires Valid(t)
    ensures Valid(InsertNamed(t, table, name))
  {
    var row := NamedRow(t.nextId, name);
    assert forall r :: r in Rows(t, table) + [row] ==> r in Rows(t, table) || r == row;
  }

  /** Writing an association between ids the counter handed out keeps the store valid. */
  lemma InsertAssociationValid(t: Tables, categoryId: nat, itemId: nat)
    requires Valid(t) && categoryId < t.nextId && itemId < t.nextId
    ensures Valid(InsertAssociation(t, categoryId, itemId))
  {
    var row := AssocRow(t.nextId, categoryId, itemId);
    assert forall a :: a in t.categoryItems + [row] ==> a in t.categoryItems || a == row;
  }

  /** Deleting keeps the store valid. */
  lemma DeleteAssociationValid(t: Tables, id: nat)
    requires Valid(t)
    ensures Valid(DeleteAssociation(t, id))
  {
  }

  /** Deleting keeps the associations' pairs unique. */
  lemma DeleteAssociationUnique(t: Tables, id: nat)
    requires UniquePairs(t.categoryItems)
    ensures UniquePairs(DeleteAssociation(t, id).categoryItems)
  {
    FilterKeepsUniquePairs(t.categoryItems, (a: AssocRow) => a.id != id);
  }

  /** The store as a mutable object: one field per table and the id counter. */
  class Db {
    var categories: seq<NamedRow>
    var items: seq<NamedRow>
    var categoryItems: seq<AssocRow>
    var nextId: nat

    function Snapshot(): Tables
      reads this
    {
      Tables(categories, items, categoryItems, nextId)
    }

    /** `get(table)`: every row of a named table. */
    method Get(table: NamedTable) returns (rows: seq<NamedRow>)
      ensures rows == Rows(Snapshot(), table)
    {
      rows := if table == Categories then categories else items;
    }

    /** `get(table, {"name": name})`: the rows with that name, in table order. */
    method GetNamed(table: NamedTable, name: string) returns (rows: seq<NamedRow>)
      ensures rows == Named(Rows(Snapshot(), table), name)
      ensures forall r :: r in rows <==> r in Rows(Snapshot(), table) && r.name == name
    {
      var all := Get(table);
      rows := Named(all, name);
    }

    /** `get("category_items")`. */
    method GetCategoryItems() returns (rows: seq<AssocRow>)
      ensures rows == categoryItems
    {
      rows := categoryItems;
    }

    /** `get("category_items", {"category_id": .., "item_id": ..})`. */
    method GetCategoryItemsFor(categoryId: nat, itemId: nat) returns (rows: seq<AssocRow>)
      ensures rows == WithPair(categoryItems, categoryId, itemId)
      ensures forall a :: a in rows <==> a in categoryItems && a.categoryId == categoryId && a.itemId == itemId
    {
      rows := WithPair(categoryItems, categoryId, itemId);
    }

    method WriteNamed(table: NamedTable, name: string)
      modifies this
      ensures Snapshot() == InsertNamed(old(Snapshot()), table, name)
    {
      if table == Categories {
        categories := categories + [NamedRow(nextId, name)];
      } else {
        items := items + [NamedRow(nextId, name)];
      }
      nextId := nextId + 1;
    }

    method WriteCategoryItem(categoryId: nat, itemId: nat)
      modifies this
      ensures Snapshot() == InsertAssociation(old(Snapshot()), categoryId, itemId)
    {
      categoryItems := categoryItems + [AssocRow(nextId, categoryId, itemId)];
      nextId := nextId + 1;
    }

    method DeleteCategoryItem(id: nat)
      modifies this
      ensures Snapshot() == DeleteAssociation(old(Snapshot()), id)
    {
      categoryItems := Filter(categoryItems, (a: AssocRow) => a.id != id);
    }
  }
}
