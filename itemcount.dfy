/**
  How `count_items` relates to `items`. The count reads the Item table alone,
  while the listing reads the joined view: one row per item and distinct linked
  category name, and no row at all for an item without an image. The two agree
  whenever every item has one linked category name and at least one image.
 */
module ItemCount {
  import opened Wrappers
  import opened Json
  import opened Query
  import opened Semantics
  import opened Filters
  import opened Tables
  import opened Listing

  /** Rows that the same predicates accept or reject pairwise are counted alike. */
  lemma {:induction false} CountPointwise(ps: seq<Pred>, a: seq<Row>, b: seq<Row>)
    requires |a| == |b|
    requires forall i :: 0 <= i < |a| ==> (HoldsAll(ps, a[i]) <==> HoldsAll(ps, b[i]))
    ensures Count(ps, a) == Count(ps, b)
  {
    if a != [] {
      assert forall i :: 0 <= i < |a| - 1 ==> a[1..][i] == a[i + 1] && b[1..][i] == b[i + 1];
      CountPointwise(ps, a[1..], b[1..]);
    }
  }

  /** The joined row of an item passes an Item filter exactly when the item's own row does. */
  lemma ViewRowFilter(f: Filter, it: Item, name: string, url: string)
    ensures Translate(f, ItemEntry).Ok?
    ensures HoldsAll(Translate(f, ItemEntry).value, ItemViewRow(it, name, url))
        <==> HoldsAll(Translate(f, ItemEntry).value, ItemRow(it))
  {
    ItemFilterMeaning(f, ItemViewRow(it, name, url));
    ItemFilterMeaning(f, ItemRow(it));
    forall k | k in ItemColumns
      ensures Field(ItemViewRow(it, name, url), Column(ItemTable, k)) == Field(ItemRow(it), Column(ItemTable, k))
    {
    }
  }

  /** Item `it` contributes exactly one row to the joined view. */
  predicate SingleGroup(t: Tables, it: Item) {
    |Distinct(LinkedNames(t.itemCategories, t.categories, it.id))| == 1
    && ImageUrls(t.itemImages, it.id) != []
  }

  predicate OneRowPerItem(t: Tables) {
    forall i :: 0 <= i < |t.items| ==> SingleGroup(t, t.items[i])
  }

  /** The one joined row of an item under `SingleGroup`. */
  function SingleRow(t: Tables, it: Item): Row
    requires SingleGroup(t, it)
  {
    ItemViewRow(it, Distinct(LinkedNames(t.itemCategories, t.categories, it.id))[0],
                MinStr(ImageUrls(t.itemImages, it.id)))
  }

  /** Under `SingleGroup`, the view holds one row per item, in the items' order. */
  lemma {:induction false} GroupsOnePerItem(t: Tables, items: seq<Item>)
    requires forall i :: 0 <= i < |items| ==> SingleGroup(t, items[i])
    ensures |GroupsFrom(t, items)| == |items|
    ensures forall i :: 0 <= i < |items| ==> GroupsFrom(t, items)[i] == SingleRow(t, items[i])
  {
    if items != [] {
      var rest := items[1..];
      assert forall i :: 0 <= i < |rest| ==> rest[i] == items[i + 1];
      GroupsOnePerItem(t, rest);
      var g := ItemGroups(t, items[0]);
      assert g == [SingleRow(t, items[0])];
      assert GroupsFrom(t, items) == g + GroupsFrom(t, rest);
    }
  }

  /** When every item has one category name and an image, `count_items` under any filter
      equals the number of rows `items` filters from the joined view. */
  lemma CountMatchesViewWhenOneRowPerItem(f: Filter, t: Tables)
    requires OneRowPerItem(t)
    ensures Translate(f, ItemEntry).Ok?
    ensures Count(Translate(f, ItemEntry).value, ItemTableRows(t)) == Count(Translate(f, ItemEntry).value, ItemRows(t))
  {
    ItemFilterMeaning(f, map[]);
    var ps := Translate(f, ItemEntry).value;
    var a, b := ItemTableRows(t), ItemRows(t);
    GroupsOnePerItem(t, t.items);
    forall i | 0 <= i < |a| ensures HoldsAll(ps, a[i]) <==> HoldsAll(ps, b[i]) {
      var it := t.items[i];
      ViewRowFilter(f, it, Distinct(LinkedNames(t.itemCategories, t.categories, it.id))[0],
                    MinStr(ImageUrls(t.itemImages, it.id)));
    }
    CountPointwise(ps, a, b);
  }

  /** ... and then a first page large enough for the count lists exactly that many rows. */
  lemma ItemCountMatchesListing(f: Filter, end: int, sortField: string, sortOrder: string, t: Tables)
    requires OneRowPerItem(t)
    requires Translate(f, ItemEntry).Ok?
    requires end + 1 >= Count(Translate(f, ItemEntry).value, ItemTableRows(t))
    ensures Run(ItemsQuery(f, 0, end, sortField, sortOrder), ItemRows(t)).Some?
    ensures |Run(ItemsQuery(f, 0, end, sortField, sortOrder), ItemRows(t)).value|
         == Count(Translate(f, ItemEntry).value, ItemTableRows(t))
  {
    CountMatchesViewWhenOneRowPerItem(f, t);
    CountAgreesWithListing(ItemsQuery(f, 0, end, sortField, sortOrder), ItemRows(t));
  }

  /** An item without an image is counted but never listed. */
  lemma ImagelessItemCountedNotListed()
    ensures var t := Tables([Category(1, "Toys", "", 0)], [Item(1, "Lamp", "", 0)], [ItemCategory(1, 1, 0)], []);
      Count([], ItemTableRows(t)) == 1 && ItemRows(t) == []
  {
  }

  /** An item linked to two categories is counted once but listed twice. */
  lemma TwoCategoryItemListedTwice()
    ensures var t := Tables([Category(1, "Toys", "", 0), Category(2, "Home", "", 0)],
                            [Item(1, "Lamp", "", 0)],
                            [ItemCategory(1, 1, 0), ItemCategory(1, 2, 0)],
                            [ItemImage(1, 1, "u", "", 0)]);
      Count([], ItemTableRows(t)) == 1 && |ItemRows(t)| == 2
  {
    var t := Tables([Category(1, "Toys", "", 0), Category(2, "Home", "", 0)],
                    [Item(1, "Lamp", "", 0)],
                    [ItemCategory(1, 1, 0), ItemCategory(1, 2, 0)],
                    [ItemImage(1, 1, "u", "", 0)]);
    var cats, links := t.categories, t.itemCategories;
    assert NamesWithId(cats, 1) == ["Toys"] by {
      assert NamesWithId(cats[1..], 1) == [] by { assert cats[1..][1..] == []; }
    }
    assert NamesWithId(cats, 2) == ["Home"] by {
      assert NamesWithId(cats[1..], 2) == ["Home"] by { assert cats[1..][1..] == []; }
    }
    assert LinkedNames(links, cats, 1) == ["Toys", "Home"] by {
      assert links[1..][1..] == [];
      assert LinkedNames(links[1..], cats, 1) == ["Home"];
    }
    assert Distinct(["Toys", "Home"]) == ["Toys", "Home"] by {
      assert ["Toys", "Home"][..1] == ["Toys"];
      assert ["Toys"][..0] == [];
    }
    assert ImageUrls(t.itemImages, 1) == ["u"];
    assert |ItemGroups(t, t.items[0])| == 2;
    assert ItemRows(t) == ItemGroups(t, t.items[0]) + GroupsFrom(t, []) by {
      assert t.items[1..] == [];
    }
    assert Count([], ItemTableRows(t)) == 1 by {
      assert ItemTableRows(t) == [ItemRow(t.items[0])];
    }
  }
}
