/**
  The four catalog tables, the statements the write paths execute against
  them, `getLastID`'s max + 1 allocation, and the rows each listing reads.
  Timestamps from `datetime.now()` are plain integers supplied by the caller.
 */
module Tables {
  import opened Wrappers
  import opened Json
  import opened Text
  import opened Query
  import opened Semantics

  datatype Category = Category(id: int, name: string, description: string, createdAt: int)
  datatype Item = Item(id: int, title: string, description: string, createdAt: int)
  datatype ItemCategory = ItemCategory(itemId: int, categoryId: int, createdAt: int)
  datatype ItemImage = ItemImage(id: int, itemId: int, url: string, altText: string, createdAt: int)

  datatype Tables = Tables(
    categories: seq<Category>,
    items: seq<Item>,
    itemCategories: seq<ItemCategory>,
    itemImages: seq<ItemImage>)

  /** One executed INSERT, UPDATE or DELETE statement. */
  datatype Change =
    | InsertCategory(category: Category)
    | UpdateCategory(id: int, name: string, description: string, createdAt: int)
    | DeleteCategory(id: int)
    | InsertItem(item: Item)
    | InsertItemCategory(link: ItemCategory)
    | InsertItemImage(image: ItemImage)
    | DeleteItemCategories(itemId: int)
    | DeleteItemImages(itemId: int)
    | DeleteItem(id: int)

  /** The rows of `s` that a `DELETE ... WHERE` leaves, in order. */
  function Keep<T>(s: seq<T>, drop: T -> bool): (r: seq<T>)
    ensures forall i :: 0 <= i < |r| ==> r[i] in s && !drop(r[i])
    ensures forall i :: 0 <= i < |s| && !drop(s[i]) ==> s[i] in r
    ensures |r| <= |s|
  {
    if s == [] then []
    else
      assert s == [s[0]] + s[1..];
      (if drop(s[0]) then [] else [s[0]]) + Keep(s[1..], drop)
  }

  /** `UPDATE Category SET name, description, created_at WHERE id = id`. */
  function SetCategory(cs: seq<Category>, id: int, name: string, description: string, createdAt: int): seq<Category> {
    seq(|cs|, i requires 0 <= i < |cs| =>
      if cs[i].id == id then Category(id, name, description, createdAt) else cs[i])
  }

  function Apply(t: Tables, c: Change): Tables {
    match c
    case InsertCategory(row) => t.(categories := t.categories + [row])
    case UpdateCategory(id, name, description, at) =>
      t.(categories := SetCategory(t.categories, id, name, description, at))
    case DeleteCategory(id) => t.(categories := Keep(t.categories, (x: Category) => x.id == id))
    case InsertItem(row) => t.(items := t.items + [row])
    case InsertItemCategory(row) => t.(itemCategories := t.itemCategories + [row])
    case InsertItemImage(row) => t.(itemImages := t.itemImages + [row])
    case DeleteItemCategories(itemId) =>
      t.(itemCategories := Keep(t.itemCategories, (x: ItemCategory) => x.itemId == itemId))
    case DeleteItemImages(itemId) =>
      t.(itemImages := Keep(t.itemImages, (x: ItemImage) => x.itemId == itemId))
    case DeleteItem(id) => t.(items := Keep(t.items, (x: Item) => x.id == id))
  }

  /** The tables as seen after running `cs` in order. */
  function ApplyAll(t: Tables, cs: seq<Change>): Tables
    decreases |cs|
  {
    if cs == [] then t else ApplyAll(Apply(t, cs[0]), cs[1..])
  }

  /** Running one more statement after `cs` is applying it to what `cs` produced. */
  lemma {:induction false} ApplyAllAppend(t: Tables, cs: seq<Change>, c: Change)
    ensures ApplyAll(t, cs + [c]) == Apply(ApplyAll(t, cs), c)
    decreases |cs|
  {
    if cs == [] {
      assert [c][1..] == [];
    } else {
      assert (cs + [c])[0] == cs[0] && (cs + [c])[1..] == cs[1..] + [c];
      ApplyAllAppend(Apply(t, cs[0]), cs[1..], c);
    }
  }

  // Primary keys and their allocation.

  function Ids<T>(s: seq<T>, key: T -> int): seq<int> {
    seq(|s|, i requires 0 <= i < |s| => key(s[i]))
  }

  const CategoryKey := (c: Category) => c.id
  const ItemKey := (it: Item) => it.id
  const ImageKey := (im: ItemImage) => im.id

  /** `SELECT max(id)`: NULL on an empty table. */
  function MaxId(ids: seq<int>): (m: Option<int>)
    ensures m.None? <==> ids == []
    ensures m.Some? ==> m.value in ids && forall i :: 0 <= i < |ids| ==> ids[i] <= m.value
  {
    if ids == [] then None
    else
      match MaxId(ids[1..])
      case None => Some(ids[0])
      case Some(m) => Some(if ids[0] < m then m else ids[0])
  }

  /** `getLastID`: `(result or 0) + 1`. */
  function NextId(ids: seq<int>): (r: int)
    ensures forall i :: 0 <= i < |ids| ==> ids[i] < r
    ensures ids == [] ==> r == 1
    ensures ids != [] ==> r - 1 in ids
  {
    var result := MaxId(ids);
    (if result.None? || result.value == 0 then 0 else result.value) + 1
  }

  /** No two rows of `s` share a key. */
  predicate UniqueBy<T>(s: seq<T>, key: T -> int) {
    forall i, j :: 0 <= i < j < |s| ==> key(s[i]) != key(s[j])
  }

  /** The keyed tables hold no duplicate primary key. */
  predicate Keyed(t: Tables) {
    UniqueBy(t.categories, CategoryKey) && UniqueBy(t.items, ItemKey) && UniqueBy(t.itemImages, ImageKey)
  }

  lemma {:induction false} KeepUnique<T>(s: seq<T>, drop: T -> bool, key: T -> int)
    requires UniqueBy(s, key)
    ensures UniqueBy(Keep(s, drop), key)
  {
    if s != [] {
      KeepUnique(s[1..], drop, key);
      var rest := Keep(s[1..], drop);
      var r := Keep(s, drop);
      if !drop(s[0]) {
        forall i, j | 0 <= i < j < |r| ensures key(r[i]) != key(r[j]) {
          if i == 0 {
            assert r[j] == rest[j - 1] && rest[j - 1] in s[1..];
            var k :| 0 <= k < |s[1..]| && s[1..][k] == r[j];
            assert s[k + 1] == r[j];
          } else {
            assert r[i] == rest[i - 1] && r[j] == rest[j - 1];
          }
        }
      }
    }
  }

  lemma AppendFreshUnique<T>(s: seq<T>, x: T, key: T -> int)
    requires UniqueBy(s, key)
    requires key(x) == NextId(Ids(s, key))
    ensures UniqueBy(s + [x], key)
  {
    var ids := Ids(s, key);
    forall i | 0 <= i < |s| ensures key(s[i]) != key(x) {
      assert ids[i] == key(s[i]);
    }
  }

  /** Inserting with an id from `NextId` keeps primary keys distinct; that is the single-writer
      assumption of max + 1 allocation. */
  predicate FreshInsert(t: Tables, c: Change) {
    match c
    case InsertCategory(row) => row.id == NextId(Ids(t.categories, CategoryKey))
    case InsertItem(row) => row.id == NextId(Ids(t.items, ItemKey))
    case InsertItemImage(row) => row.id == NextId(Ids(t.itemImages, ImageKey))
    case _ => true
  }

  lemma ApplyKeepsKeys(t: Tables, c: Change)
    requires Keyed(t) && FreshInsert(t, c)
    ensures Keyed(Apply(t, c))
  {
    match c
    case InsertCategory(row) => AppendFreshUnique(t.categories, row, CategoryKey);
    case InsertItem(row) => AppendFreshUnique(t.items, row, ItemKey);
    case InsertItemImage(row) => AppendFreshUnique(t.itemImages, row, ImageKey);
    case UpdateCategory(id, name, description, at) =>
      var cs := SetCategory(t.categories, id, name, description, at);
      assert forall i :: 0 <= i < |cs| ==> cs[i].id == t.categories[i].id;
    case DeleteCategory(id) => KeepUnique(t.categories, (x: Category) => x.id == id, CategoryKey);
    case DeleteItem(id) => KeepUnique(t.items, (x: Item) => x.id == id, ItemKey);
    case InsertItemCategory(_) =>
    case DeleteItemCategories(_) =>
    case DeleteItemImages(itemId) => KeepUnique(t.itemImages, (x: ItemImage) => x.itemId == itemId, ImageKey);
  }

  /** `UPDATE Category ... WHERE id = id` rewrites the rows with that id and no other row,
      keeps every row's key and position, and touches no other table. */
  lemma UpdateCategoryEffect(t: Tables, id: int, name: string, description: string, at: int)
    ensures var u := Apply(t, UpdateCategory(id, name, description, at));
      && u == t.(categories := u.categories)
      && |u.categories| == |t.categories|
      && (forall i :: 0 <= i < |u.categories| ==> u.categories[i].id == t.categories[i].id)
      && (forall c :: c in u.categories && c.id == id ==> c == Category(id, name, description, at))
      && (forall c :: c in t.categories && c.id != id <==> c in u.categories && c.id != id)
      && ((forall c :: c in t.categories ==> c.id != id) ==> u == t)
  {
    var cs, u := t.categories, SetCategory(t.categories, id, name, description, at);
    forall c | c in u && c.id != id ensures c in cs {
      var i :| 0 <= i < |u| && u[i] == c;
    }
    forall c | c in cs && c.id != id ensures c in u {
      var i :| 0 <= i < |cs| && cs[i] == c;
      assert u[i] == c;
    }
    if forall c :: c in cs ==> c.id != id {
      assert forall i :: 0 <= i < |cs| ==> u[i] == cs[i];
    }
  }

  // The rows the listing statements read.

  function CategoryRow(c: Category): Row {
    map[Column(CategoryTable, "id") := Int(c.id),
        Column(CategoryTable, "name") := Str(c.name),
        Column(CategoryTable, "description") := Str(c.description),
        Column(CategoryTable, "created_at") := Int(c.createdAt)]
  }

  function CategoryRows(t: Tables): seq<Row> {
    seq(|t.categories|, i requires 0 <= i < |t.categories| => CategoryRow(t.categories[i]))
  }

  function ItemRow(it: Item): Row {
    map[Column(ItemTable, "id") := Int(it.id),
        Column(ItemTable, "title") := Str(it.title),
        Column(ItemTable, "description") := Str(it.description),
        Column(ItemTable, "created_at") := Int(it.createdAt)]
  }

  /** The rows `count_items` counts: the Item table alone, no join. */
  function ItemTableRows(t: Tables): seq<Row> {
    seq(|t.items|, i requires 0 <= i < |t.items| => ItemRow(t.items[i]))
  }

  /** Names of the categories an item is linked to, one per matching (link, category) pair. */
  function LinkedNames(links: seq<ItemCategory>, cats: seq<Category>, itemId: int): seq<string> {
    if links == [] then []
    else
      (if links[0].itemId == itemId then NamesWithId(cats, links[0].categoryId) else [])
      + LinkedNames(links[1..], cats, itemId)
  }

  function NamesWithId(cats: seq<Category>, id: int): seq<string> {
    if cats == [] then []
    else (if cats[0].id == id then [cats[0].name] else []) + NamesWithId(cats[1..], id)
  }

  /** The distinct elements of `s`, in order of first occurrence. */
  function Distinct(s: seq<string>): (r: seq<string>)
    ensures forall x :: x in r <==> x in s
    ensures forall i, j :: 0 <= i < j < |r| ==> r[i] != r[j]
  {
    if s == [] then []
    else
      var rest := Distinct(s[..|s| - 1]);
      assert s == s[..|s| - 1] + [s[|s| - 1]];
      if s[|s| - 1] in rest then rest else rest + [s[|s| - 1]]
  }

  function ImageUrls(images: seq<ItemImage>, itemId: int): seq<string> {
    if images == [] then []
    else (if images[0].itemId == itemId then [images[0].url] else []) + ImageUrls(images[1..], itemId)
  }

  /** `MIN(url)` over a non-empty group. */
  function MinStr(s: seq<string>): (m: string)
    requires s != []
    ensures m in s && forall i :: 0 <= i < |s| ==> StrLe(m, s[i])
  {
    if |s| == 1 then StrLeTotal(s[0], s[0]); s[0]
    else
      var m := MinStr(s[1..]);
      StrLeTotal(s[0], m);
      StrLeTotal(s[0], s[0]);
      forall i | 1 <= i < |s| ensures StrLe(s[0], m) ==> StrLe(s[0], s[i]) {
        assert s[i] == s[1..][i - 1];
        if StrLe(s[0], m) { StrLeTrans(s[0], m, s[i]); }
      }
      if StrLe(s[0], m) then s[0] else m
  }

  function ItemViewRow(it: Item, category: string, url: string): Row {
    ItemRow(it)[Column(CategoryTable, "name") := Str(category)][Column(ItemImageTable, "url") := Str(url)]
  }

  /** The rows of one item in the joined, grouped listing: one per distinct linked category
      name, and none when the item has no linked category or no image. */
  function ItemGroups(t: Tables, it: Item): seq<Row> {
    var names := Distinct(LinkedNames(t.itemCategories, t.categories, it.id));
    var urls := ImageUrls(t.itemImages, it.id);
    if urls == [] then []
    else seq(|names|, i requires 0 <= i < |names| => ItemViewRow(it, names[i], MinStr(urls)))
  }

  function GroupsFrom(t: Tables, items: seq<Item>): seq<Row> {
    if items == [] then [] else ItemGroups(t, items[0]) + GroupsFrom(t, items[1..])
  }

  /** The rows `items` reads: Item joined with ItemCategory, Category and ItemImage,
      grouped by the Item columns and the category name. */
  function ItemRows(t: Tables): seq<Row> {
    GroupsFrom(t, t.items)
  }
}
