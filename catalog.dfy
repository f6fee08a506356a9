/**
  The `Supabase` class: listing and counting of categories and items, and the
  write paths over the shared session. Each method follows the source's own
  sequence of statements, commits, rollbacks and early returns; an exception
  that escapes the method is an `Err`.
 */
module Catalog {
  import opened Wrappers
  import opened Json
  import opened Text
  import opened Query
  import opened Semantics
  import opened Filters
  import opened Tables
  import opened Store

  /** The messages the write paths return. */
  datatype Reply =
    | CategoryAdded(name: string)      // f"{name} Category Added"
    | CategoryUpdated(name: string)    // f"{name} Category Updated."
    | CategoryMissing                  // "Category does not exist, if it does not exist add"
    | CategoryDeleted                  // "Category Deleted Successfully."
    | ItemAdded(title: string)         // Messages.success
    | ItemNotAdded(title: string)      // Messages.exception_message, status 500
    | ItemDeleted
    | ItemNotDeleted
    | ImageUpdated
    | ImageNotUpdated
    | NoReply                          // the method falls off its end and returns None

  /** What an operation raises. */
  datatype Failure =
    | IncompatibleList(key: string)    // the ValueError of the filter dispatch, re-raised as is
    | StoreError                       // an exception of the store, re-raised as is
    | ServerError                      // HTTPException(status_code=500)

  datatype KeyedTable = Categories | Items | Images

  function TableIds(t: Tables, table: KeyedTable): seq<int> {
    match table
    case Categories => Ids(t.categories, CategoryKey)
    case Items => Ids(t.items, ItemKey)
    case Images => Ids(t.itemImages, ImageKey)
  }

  const ImageBucket: string := "https://mcaniisezxryajilvjdb.supabase.co/storage/v1/object/public/item-images/"

  /** The public URL of the image uploaded as `f"{id}.jpg"`. */
  function ImageUrl(id: int): string {
    ImageBucket + IntString(id) + ".jpg"
  }

  /** The url is the bucket, then a decimal name that reads back as the id, then ".jpg". */
  lemma ImageUrlRoundTrip(id: int)
    ensures var u := ImageUrl(id);
      && |u| >= |ImageBucket| + 5
      && u[..|ImageBucket|] == ImageBucket && u[|u| - 4..] == ".jpg"
      && var name := u[|ImageBucket|..|u| - 4];
         && (name[0] == '-' || IsDigit(name[0]))
         && (forall i :: 1 <= i < |name| ==> IsDigit(name[i]))
         && ParseInt(name) == id
  {
    var n := IntString(id);
    IntStringRoundTrip(id);
    var u := ImageUrl(id);
    assert u[|ImageBucket|..|u| - 4] == n;
  }

  /** Two items never share an image url. */
  lemma ImageUrlInjective(a: int, b: int)
    requires ImageUrl(a) == ImageUrl(b)
    ensures a == b
  {
    ImageUrlRoundTrip(a);
    ImageUrlRoundTrip(b);
  }

  const UpdatedAltText: string := "Updated via Oslo FE"

  /** The row `addCategory` inserts into tables `t`. */
  function NewCategory(t: Tables, name: string, desc: string, now: int): Category {
    Category(NextId(TableIds(t, KeyedTable.Categories)), name, desc, now)
  }

  /** The image row inserted for item `itemId` into tables `t`. */
  function NewImage(t: Tables, itemId: int, altText: string, now: int): ItemImage {
    ItemImage(NextId(TableIds(t, Images)), itemId, ImageUrl(itemId), altText, now)
  }

  /** The three statements of a successful `addNewItem` on tables `t`, in order. */
  function NewItemChanges(t: Tables, title: string, desc: string, altText: string, categoryId: int, now: int): (cs: seq<Change>)
    ensures |cs| == 3 && cs[0].InsertItem? && cs[1].InsertItemCategory? && cs[2].InsertItemImage?
    ensures var id := cs[0].item.id;
      && (forall i :: 0 <= i < |t.items| ==> t.items[i].id < id)
      && cs[1].link == ItemCategory(id, categoryId, now)
      && cs[2].image.itemId == id && cs[2].image.url == ImageUrl(id)
      && (forall i :: 0 <= i < |t.itemImages| ==> t.itemImages[i].id < cs[2].image.id)
  {
    var id := NextId(TableIds(t, Items));
    assert forall i :: 0 <= i < |t.items| ==> TableIds(t, Items)[i] == t.items[i].id;
    assert forall i :: 0 <= i < |t.itemImages| ==> TableIds(t, Images)[i] == t.itemImages[i].id;
    [InsertItem(Item(id, title, desc, now)),
     InsertItemCategory(ItemCategory(id, categoryId, now)),
     InsertItemImage(NewImage(t, id, altText, now))]
  }

  /** The three statements of `DeleteItembyID`, in order. */
  function DeleteItemChanges(itemId: int): seq<Change> {
    [DeleteItemCategories(itemId), DeleteItemImages(itemId), DeleteItem(itemId)]
  }

  /** After `DeleteItembyID(id)` no link, image or item row refers to `id`, every other row
      stays, and the Category table is untouched. */
  lemma DeleteItemEffect(t: Tables, id: int)
    ensures var u := ApplyAll(t, DeleteItemChanges(id));
      && u.categories == t.categories
      && (forall x :: x in u.itemCategories ==> x in t.itemCategories && x.itemId != id)
      && (forall x :: x in t.itemCategories && x.itemId != id ==> x in u.itemCategories)
      && (forall x :: x in u.itemImages ==> x in t.itemImages && x.itemId != id)
      && (forall x :: x in t.itemImages && x.itemId != id ==> x in u.itemImages)
      && (forall x :: x in u.items ==> x in t.items && x.id != id)
      && (forall x :: x in t.items && x.id != id ==> x in u.items)
  {
    var cs := DeleteItemChanges(id);
    var t1 := Apply(t, cs[0]);
    var t2 := Apply(t1, cs[1]);
    var t3 := Apply(t2, cs[2]);
    assert cs[1..] == [cs[1], cs[2]] && cs[1..][1..] == [cs[2]] && [cs[2]][1..] == [];
    assert ApplyAll(t, cs) == t3 by {
      assert ApplyAll(t2, [cs[2]]) == t3;
      assert ApplyAll(t1, [cs[1], cs[2]]) == ApplyAll(t2, [cs[2]]);
    }
    forall x | x in t3.itemCategories ensures x in t.itemCategories && x.itemId != id {
      var i :| 0 <= i < |t3.itemCategories| && t3.itemCategories[i] == x;
    }
    forall x | x in t3.itemImages ensures x in t.itemImages && x.itemId != id {
      var i :| 0 <= i < |t3.itemImages| && t3.itemImages[i] == x;
    }
    forall x | x in t3.items ensures x in t.items && x.id != id {
      var i :| 0 <= i < |t3.items| && t3.items[i] == x;
    }
    forall x | x in t.itemCategories && x.itemId != id ensures x in t3.itemCategories {
      var i :| 0 <= i < |t.itemCategories| && t.itemCategories[i] == x;
    }
    forall x | x in t.itemImages && x.itemId != id ensures x in t3.itemImages {
      var i :| 0 <= i < |t.itemImages| && t.itemImages[i] == x;
    }
    forall x | x in t.items && x.id != id ensures x in t3.items {
      var i :| 0 <= i < |t.items| && t.items[i] == x;
    }
  }

  /** A Python reference as far as `is not None` can tell. */
  datatype PyRef = PyNone | Coroutine

  /** Calling the `async def getCategoryByID` without `await`: a coroutine object is
      returned and the lookup never runs. */
  function UnawaitedLookup(categoryId: int): PyRef {
    Coroutine
  }

  /** The lookup by id finds a row exactly when the id is a Category key, and only rows with that id. */
  lemma CategoryLookup(t: Tables, id: int)
    ensures var rows := Select([Eq(Column(CategoryTable, "id"), Int(id))], CategoryRows(t));
      && (rows == [] <==> id !in TableIds(t, KeyedTable.Categories))
      && forall row :: row in rows ==> row in CategoryRows(t) && Field(row, Column(CategoryTable, "id")) == Int(id)
  {
    var p := Eq(Column(CategoryTable, "id"), Int(id));
    var all := CategoryRows(t);
    var rows := Select([p], all);
    var ids := TableIds(t, KeyedTable.Categories);
    forall row | row in rows ensures row in all && Field(row, Column(CategoryTable, "id")) == Int(id) {
      var k :| 0 <= k < |rows| && rows[k] == row;
      assert HoldsAll([p], row) && Holds([p][0], row);
      assert row in multiset(rows);
    }
    if id in ids {
      var k :| 0 <= k < |ids| && ids[k] == id;
      assert HoldsAll([p], all[k]);
      assert all[k] in all;
    }
    if rows != [] {
      var row := rows[0];
      assert row in all;
      var k :| 0 <= k < |all| && all[k] == row;
      assert ids[k] == id;
    }
  }

  class Supabase {
    const session: Session

    /** Primary keys stay distinct in the committed tables and in the session's view. */
    ghost predicate Valid()
      reads this, session
    {
      Keyed(session.committed) && Keyed(session.View())
    }

    constructor (s: Session)
      requires Keyed(s.committed) && Keyed(s.View())
      ensures session == s && Valid()
    {
      session := s;
    }

    /** `getLastID(table)`: `SELECT max(id)` through the session, then `(result or 0) + 1`. */
    method GetLastID(table: KeyedTable) returns (id: int)
      ensures id == NextId(TableIds(session.View(), table))
      ensures forall i :: 0 <= i < |TableIds(session.View(), table)| ==> TableIds(session.View(), table)[i] < id
    {
      var result := MaxId(TableIds(session.View(), table));
      id := (if result.None? || result.value == 0 then 0 else result.value) + 1;
    }

    /** `count_categories(filter)`: the filter entries are walked in order; a mixed list
        raises its ValueError before anything runs; the count runs as call 0. */
    method CountCategories(f: Filter, fault: Fault) returns (r: Result<nat, Failure>)
      ensures Translate(f, CountCategoryEntry).Err? ==>
        r == Err(IncompatibleList(Translate(f, CountCategoryEntry).error.key))
      ensures Translate(f, CountCategoryEntry).Ok? && Fails(fault, 0) ==> r == Err(StoreError)
      ensures Translate(f, CountCategoryEntry).Ok? && !Fails(fault, 0) ==>
        r == Ok(Count(Translate(f, CountCategoryEntry).value, CategoryRows(session.View())))
    {
      var preds: seq<Pred> := [];
      var i := 0;
      while i < |f|
        invariant 0 <= i <= |f|
        invariant Translate(f[..i], CountCategoryEntry) == Ok(preds)
      {
        var (key, value) := f[i];
        assert f[..i + 1][..i] == f[..i] && f[..i + 1][i] == f[i];
        if key in CategoryColumns {
          var column := Column(CategoryTable, key);
          if value.List? {
            if AllStr(value.elems) || AllInt(value.elems) {
              preds := preds + [Member(column, value.elems)];
            } else {
              TranslateStopsAtError(f, i + 1, CountCategoryEntry);
              return Err(IncompatibleList(key));
            }
          } else if value.Str? {
            preds := preds + [Substr(column, value.s)];
          } else {
            preds := preds + [Eq(column, value)];
          }
        }
        i := i + 1;
      }
      assert f[..|f|] == f;
      if Fails(fault, 0) {
        return Err(StoreError);
      }
      r := Ok(Count(preds, CategoryRows(session.View())));
    }

    /** `categories(filter, range, sort)`: any exception, including the ValueError of a
        mixed list and the store's refusal of a negative OFFSET or LIMIT, rolls the session
        back and raises a server error. The query runs as call 0. */
    method Categories(f: Filter, start: int, end: int, sortField: string, sortOrder: string, fault: Fault)
      returns (r: Result<seq<Row>, Failure>)
      requires Valid()
      modifies session
      ensures Valid()
      ensures var q := CategoriesQuery(f, start, end, sortField, sortOrder);
        if q.Ok? && Run(q.value, CategoryRows(old(session.View()))).Some? && !Fails(fault, 0) then
          r == Ok(Run(q.value, CategoryRows(old(session.View()))).value)
          && session.committed == old(session.committed) && session.pending == old(session.pending)
        else
          r == Err(ServerError) && session.committed == old(session.committed) && session.pending == []
    {
      var preds: seq<Pred> := [];
      var i := 0;
      while i < |f|
        invariant 0 <= i <= |f|
        invariant Translate(f[..i], CategoryEntry) == Ok(preds)
      {
        var (key, value) := f[i];
        assert f[..i + 1][..i] == f[..i] && f[..i + 1][i] == f[i];
        if key in CategoryColumns {
          var column := Column(CategoryTable, key);
          match value
          case List(vs) =>
            if AllStr(vs) {
              preds := preds + [Member(column, vs)];
            } else if AllInt(vs) {
              preds := preds + [Member(column, vs)];
            } else {
              TranslateStopsAtError(f, i + 1, CategoryEntry);
              session.Rollback();
              return Err(ServerError);
            }
          case Str(s) =>
            preds := preds + [Substr(column, s)];
          case _ =>
            preds := preds + [Eq(column, value)];
        }
        i := i + 1;
      }
      assert f[..|f|] == f;

      var order: Option<Order> := None;
      if sortField in CategoryColumns {
        var column := Column(CategoryTable, sortField);
        if UpperStr(sortOrder) == "ASC" {
          order := Some(OrderBy(column, Asc));
        } else {
          order := Some(OrderBy(column, Desc));
        }
      }

      var limit := end - start + 1;
      var q := Query(preds, order, start, limit);
      var results := Run(q, CategoryRows(session.View()));
      if results.None? || Fails(fault, 0) {
        session.Rollback();
        return Err(ServerError);
      }
      r := Ok(results.value);
    }

    /** `items(filter, range, sort)`: every recognised key is an equality; the joined,
        grouped rows are filtered, ordered (the field "category" orders by the category
        name) and paged. Failures roll back and raise a server error. */
    method Items(f: Filter, start: int, end: int, sortField: string, sortOrder: string, fault: Fault)
      returns (r: Result<seq<Row>, Failure>)
      requires Valid()
      modifies session
      ensures Valid()
      ensures Translate(f, ItemEntry).Ok?
      ensures var q := ItemsQuery(f, start, end, sortField, sortOrder);
        if Run(q, ItemRows(old(session.View()))).Some? && !Fails(fault, 0) then
          r == Ok(Run(q, ItemRows(old(session.View()))).value)
          && session.committed == old(session.committed) && session.pending == old(session.pending)
        else
          r == Err(ServerError) && session.committed == old(session.committed) && session.pending == []
    {
      var preds: seq<Pred> := [];
      var i := 0;
      while i < |f|
        invariant 0 <= i <= |f|
        invariant Translate(f[..i], ItemEntry) == Ok(preds)
      {
        var (key, value) := f[i];
        assert f[..i + 1][..i] == f[..i] && f[..i + 1][i] == f[i];
        if key in ItemColumns {
          preds := preds + [Eq(Column(ItemTable, key), value)];
        }
        i := i + 1;
      }
      assert f[..|f|] == f;

      var order: Option<Order> := None;
      if sortField in ItemColumns {
        var column := Column(ItemTable, sortField);
        if UpperStr(sortOrder) == "ASC" {
          order := Some(OrderBy(column, Asc));
        } else {
          order := Some(OrderBy(column, Desc));
        }
      } else if sortField == "category" {
        var column := Column(CategoryTable, "name");
        if UpperStr(sortOrder) == "ASC" {
          order := Some(OrderBy(column, Asc));
        } else {
          order := Some(OrderBy(column, Desc));
        }
      }

      var limit := end - start + 1;
      var q := Query(preds, order, start, limit);
      var results := Run(q, ItemRows(session.View()));
      if results.None? || Fails(fault, 0) {
        session.Rollback();
        return Err(ServerError);
      }
      r := Ok(results.value);
    }

    /** `count_items(filter)`: equality on recognised keys over the Item table alone;
        there is no handler, so a store failure (call 0) propagates as is. */
    method CountItems(f: Filter, fault: Fault) returns (r: Result<nat, Failure>)
      ensures Translate(f, ItemEntry).Ok?
      ensures Fails(fault, 0) ==> r == Err(StoreError)
      ensures !Fails(fault, 0) ==> r == Ok(Count(Translate(f, ItemEntry).value, ItemTableRows(session.View())))
    {
      var preds: seq<Pred> := [];
      var i := 0;
      while i < |f|
        invariant 0 <= i <= |f|
        invariant Translate(f[..i], ItemEntry) == Ok(preds)
      {
        var (key, value) := f[i];
        assert f[..i + 1][..i] == f[..i] && f[..i + 1][i] == f[i];
        if key in ItemColumns {
          preds := preds + [Eq(Column(ItemTable, key), value)];
        }
        i := i + 1;
      }
      assert f[..|f|] == f;
      if Fails(fault, 0) {
        return Err(StoreError);
      }
      r := Ok(Count(preds, ItemTableRows(session.View())));
    }

    /** `addCategory(name, desc)`: calls are the id read (0), the INSERT (1) and the commit (2);
        a failure raises a server error without a rollback. */
    method AddCategory(name: string, desc: string, now: int, fault: Fault) returns (r: Result<Reply, Failure>)
      requires Valid()
      modifies session
      ensures Valid()
      ensures var c := InsertCategory(NewCategory(old(session.View()), name, desc, now));
        && (Fails(fault, 0) || Fails(fault, 1) ==>
              r == Err(ServerError) && session.committed == old(session.committed)
              && session.pending == old(session.pending))
        && (Fails(fault, 2) ==>
              r == Err(ServerError) && session.committed == old(session.committed)
              && session.pending == old(session.pending) + [c])
        && (Passes(fault, 2) ==>
              r == Ok(CategoryAdded(name)) && session.committed == Apply(old(session.View()), c)
              && session.pending == [])
    {
      if Fails(fault, 0) {
        return Err(ServerError);
      }
      var id := GetLastID(KeyedTable.Categories);
      var c := InsertCategory(Category(id, name, desc, now));
      if Fails(fault, 1) {
        return Err(ServerError);
      }
      ApplyKeepsKeys(session.View(), c);
      session.Execute(c);
      if Fails(fault, 2) {
        return Err(ServerError);
      }
      session.Commit();
      r := Ok(CategoryAdded(name));
    }

    /** `updateCategory(id, name, desc)` as written: the existence guard tests an unawaited
        coroutine, so the UPDATE (call 0) and the commit (call 1) always run, whether or not
        a category has that id, and the reply always reports success. */
    method UpdateCategory(id: int, name: string, desc: string, now: int, fault: Fault) returns (r: Result<Reply, Failure>)
      requires Valid()
      modifies session
      ensures Valid()
      ensures var c := Change.UpdateCategory(id, name, desc, now);
        && (Fails(fault, 0) ==>
              r == Err(ServerError) && session.committed == old(session.committed)
              && session.pending == old(session.pending))
        && (Fails(fault, 1) ==>
              r == Err(ServerError) && session.committed == old(session.committed)
              && session.pending == old(session.pending) + [c])
        && (Passes(fault, 1) ==>
              r == Ok(CategoryUpdated(name)) && session.committed == Apply(old(session.View()), c)
              && session.pending == [])
    {
      if UnawaitedLookup(id) != PyNone {
        var c := Change.UpdateCategory(id, name, desc, now);
        if Fails(fault, 0) {
          return Err(ServerError);
        }
        ApplyKeepsKeys(session.View(), c);
        session.Execute(c);
        if Fails(fault, 1) {
          return Err(ServerError);
        }
        session.Commit();
        r := Ok(CategoryUpdated(name));
      } else {
        r := Ok(CategoryMissing);
      }
    }

    /** `deleteCategory(id)` as written: the same never-None guard, so the DELETE (call 0)
        and the commit (call 1) always run. Links in ItemCategory are left in place. */
    method DeleteCategory(id: int, fault: Fault) returns (r: Result<Reply, Failure>)
      requires Valid()
      modifies session
      ensures Valid()
      ensures var c := Change.DeleteCategory(id);
        && (Fails(fault, 0) ==>
              r == Err(ServerError) && session.committed == old(session.committed)
              && session.pending == old(session.pending))
        && (Fails(fault, 1) ==>
              r == Err(ServerError) && session.committed == old(session.committed)
              && session.pending == old(session.pending) + [c])
        && (Passes(fault, 1) ==>
              r == Ok(CategoryDeleted) && session.committed == Apply(old(session.View()), c)
              && session.pending == [])
    {
      if UnawaitedLookup(id) != PyNone {
        var c := Change.DeleteCategory(id);
        if Fails(fault, 0) {
          return Err(ServerError);
        }
        ApplyKeepsKeys(session.View(), c);
        session.Execute(c);
        if Fails(fault, 1) {
          return Err(ServerError);
        }
        session.Commit();
        r := Ok(CategoryDeleted);
      } else {
        r := Ok(CategoryMissing);
      }
    }

    /** `await getCategoryByID(id)`: the category rows with that id (call 0 is the query). */
    method GetCategoryByID(id: int, fault: Fault) returns (r: Result<seq<Row>, Failure>)
      ensures Fails(fault, 0) ==> r == Err(ServerError)
      ensures !Fails(fault, 0) ==> r.Ok?
      ensures !Fails(fault, 0) ==> (r.value == [] <==> id !in TableIds(session.View(), KeyedTable.Categories))
      ensures !Fails(fault, 0) ==> forall row :: row in r.value ==> row in CategoryRows(session.View()) && Field(row, Column(CategoryTable, "id")) == Int(id)
    {
      if Fails(fault, 0) {
        return Err(ServerError);
      }
      var rows := Select([Eq(Column(CategoryTable, "id"), Int(id))], CategoryRows(session.View()));
      CategoryLookup(session.View(), id);
      r := Ok(rows);
    }

    /** `updateCategory` with the lookup awaited and checked for emptiness: the lookup is call 0,
        the UPDATE call 1 and the commit call 2; an absent id changes nothing. */
    method UpdateCategoryChecked(id: int, name: string, desc: string, now: int, fault: Fault) returns (r: Result<Reply, Failure>)
      requires Valid()
      modifies session
      ensures Valid()
      ensures var c := Change.UpdateCategory(id, name, desc, now);
        var present := id in TableIds(old(session.View()), KeyedTable.Categories);
        && (Fails(fault, 0) || (present && Fails(fault, 1)) ==>
              r == Err(ServerError) && session.committed == old(session.committed)
              && session.pending == old(session.pending))
        && (!Fails(fault, 0) && !present ==>
              r == Ok(CategoryMissing) && session.committed == old(session.committed)
              && session.pending == old(session.pending))
        && (present && Fails(fault, 2) ==>
              r == Err(ServerError) && session.committed == old(session.committed)
              && session.pending == old(session.pending) + [c])
        && (present && Passes(fault, 2) ==>
              r == Ok(CategoryUpdated(name)) && session.committed == Apply(old(session.View()), c)
              && session.pending == [])
    {
      var lookup := GetCategoryByID(id, fault);
      if lookup.Err? {
        return Err(ServerError);
      }
      if lookup.value == [] {
        return Ok(CategoryMissing);
      }
      var c := Change.UpdateCategory(id, name, desc, now);
      if Fails(fault, 1) {
        return Err(ServerError);
      }
      ApplyKeepsKeys(session.View(), c);
      session.Execute(c);
      if Fails(fault, 2) {
        return Err(ServerError);
      }
      session.Commit();
      r := Ok(CategoryUpdated(name));
    }

    /** `deleteCategory` with the lookup awaited and checked for emptiness. */
    method DeleteCategoryChecked(id: int, fault: Fault) returns (r: Result<Reply, Failure>)
      requires Valid()
      modifies session
      ensures Valid()
      ensures var c := Change.DeleteCategory(id);
        var present := id in TableIds(old(session.View()), KeyedTable.Categories);
        && (Fails(fault, 0) || (present && Fails(fault, 1)) ==>
              r == Err(ServerError) && session.committed == old(session.committed)
              && session.pending == old(session.pending))
        && (!Fails(fault, 0) && !present ==>
              r == Ok(CategoryMissing) && session.committed == old(session.committed)
              && session.pending == old(session.pending))
        && (present && Fails(fault, 2) ==>
              r == Err(ServerError) && session.committed == old(session.committed)
              && session.pending == old(session.pending) + [c])
        && (present && Passes(fault, 2) ==>
              r == Ok(CategoryDeleted) && session.committed == Apply(old(session.View()), c)
              && session.pending == [])
    {
      var lookup := GetCategoryByID(id, fault);
      if lookup.Err? {
        return Err(ServerError);
      }
      if lookup.value == [] {
        return Ok(CategoryMissing);
      }
      var c := Change.DeleteCategory(id);
      if Fails(fault, 1) {
        return Err(ServerError);
      }
      ApplyKeepsKeys(session.View(), c);
      session.Execute(c);
      if Fails(fault, 2) {
        return Err(ServerError);
      }
      session.Commit();
      r := Ok(CategoryDeleted);
    }

    /** `addNewItem(title, desc, path, altText, categoryID)`: calls are the item id read (0),
        the Item INSERT (1), the ItemCategory INSERT (2), the upload of `f"{id}.jpg"` (3) and,
        when the upload answers 200, the image id read (4), the ItemImage INSERT (5) and the
        commit (6). A failure raises a server error without a rollback; any other upload status
        returns the failure message and leaves the first two INSERTs pending. */
    method AddNewItem(title: string, desc: string, altText: string, categoryId: int,
                      uploadStatus: int, now: int, fault: Fault) returns (r: Result<Reply, Failure>)
      requires Valid()
      modifies session
      ensures Valid()
      ensures session.committed == old(session.committed) || session.pending == []
      ensures var cs := NewItemChanges(old(session.View()), title, desc, altText, categoryId, now);
        && (Fails(fault, 0) || Fails(fault, 1) ==>
              r == Err(ServerError) && session.committed == old(session.committed)
              && session.pending == old(session.pending))
        && (Fails(fault, 2) ==>
              r == Err(ServerError) && session.committed == old(session.committed)
              && session.pending == old(session.pending) + cs[..1])
        && (Fails(fault, 3) ==>
              r == Err(ServerError) && session.committed == old(session.committed)
              && session.pending == old(session.pending) + cs[..2])
        && (Passes(fault, 3) && uploadStatus != 200 ==>
              r == Ok(ItemNotAdded(title)) && session.committed == old(session.committed)
              && session.pending == old(session.pending) + cs[..2])
        && (uploadStatus == 200 && (Fails(fault, 4) || Fails(fault, 5)) ==>
              r == Err(ServerError) && session.committed == old(session.committed)
              && session.pending == old(session.pending) + cs[..2])
        && (uploadStatus == 200 && Fails(fault, 6) ==>
              r == Err(ServerError) && session.committed == old(session.committed)
              && session.pending == old(session.pending) + cs)
        && (uploadStatus == 200 && Passes(fault, 6) ==>
              r == Ok(ItemAdded(title)) && session.committed == ApplyAll(old(session.View()), cs)
              && session.pending == [])
    {
      ghost var v0 := session.View();
      ghost var cs := NewItemChanges(v0, title, desc, altText, categoryId, now);
      if Fails(fault, 0) {
        return Err(ServerError);
      }
      var id := GetLastID(KeyedTable.Items);
      var c1 := InsertItem(Item(id, title, desc, now));
      if Fails(fault, 1) {
        return Err(ServerError);
      }
      ApplyKeepsKeys(session.View(), c1);
      session.Execute(c1);
      assert session.View() == Apply(v0, c1);
      var c2 := InsertItemCategory(ItemCategory(id, categoryId, now));
      if Fails(fault, 2) {
        return Err(ServerError);
      }
      ApplyKeepsKeys(session.View(), c2);
      session.Execute(c2);
      assert [c1, c2] == cs[..2];
      if Fails(fault, 3) {
        return Err(ServerError);
      }
      if uploadStatus == 200 {
        if Fails(fault, 4) {
          return Err(ServerError);
        }
        var imageId := GetLastID(Images);
        var c3 := InsertItemImage(ItemImage(imageId, id, ImageUrl(id), altText, now));
        if Fails(fault, 5) {
          return Err(ServerError);
        }
        ApplyKeepsKeys(session.View(), c3);
        session.Execute(c3);
        assert [c1, c2, c3] == cs;
        assert session.View() == ApplyAll(v0, cs) by {
          var v1 := Apply(v0, c1);
          var v2 := Apply(v1, c2);
          assert cs[1..] == [c2, c3] && cs[1..][1..] == [c3] && [c3][1..] == [];
          assert ApplyAll(v2, [c3]) == Apply(v2, c3);
          assert ApplyAll(v1, [c2, c3]) == ApplyAll(v2, [c3]);
          assert ApplyAll(v0, cs) == ApplyAll(v1, [c2, c3]);
        }
        if Fails(fault, 6) {
          return Err(ServerError);
        }
        session.Commit();
        r := Ok(ItemAdded(title));
      } else {
        r := Ok(ItemNotAdded(title));
      }
    }

    /** `DeleteItembyID(item_id)`: the ItemCategory DELETE (call 0), the ItemImage DELETE (1),
        the Item DELETE (2) and the commit (3). Any failure rolls the session back, which also
        discards whatever was pending before the call, and returns the failure message. */
    method DeleteItemById(itemId: int, fault: Fault) returns (r: Result<Reply, Failure>)
      requires Valid()
      modifies session
      ensures Valid()
      ensures r.Ok? && session.pending == []
      ensures fault.FaultAt? && fault.call <= 3 ==>
        r.value == ItemNotDeleted && session.committed == old(session.committed)
      ensures Passes(fault, 3) ==>
        r.value == ItemDeleted && session.committed == ApplyAll(old(session.View()), DeleteItemChanges(itemId))
    {
      ghost var v0 := session.View();
      var c0 := DeleteItemCategories(itemId);
      if Fails(fault, 0) {
        session.Rollback();
        return Ok(ItemNotDeleted);
      }
      ApplyKeepsKeys(session.View(), c0);
      session.Execute(c0);
      var c1 := DeleteItemImages(itemId);
      if Fails(fault, 1) {
        session.Rollback();
        return Ok(ItemNotDeleted);
      }
      ApplyKeepsKeys(session.View(), c1);
      session.Execute(c1);
      var c2 := DeleteItem(itemId);
      if Fails(fault, 2) {
        session.Rollback();
        return Ok(ItemNotDeleted);
      }
      ApplyKeepsKeys(session.View(), c2);
      session.Execute(c2);
      assert session.View() == ApplyAll(v0, DeleteItemChanges(itemId)) by {
        var v1 := Apply(v0, c0);
        var v2 := Apply(v1, c1);
        assert ApplyAll(v2, [c2]) == Apply(v2, c2);
        assert ApplyAll(v1, [c1, c2]) == ApplyAll(v2, [c2]);
        assert ApplyAll(v0, [c0, c1, c2]) == ApplyAll(v1, [c1, c2]);
      }
      if Fails(fault, 3) {
        session.Rollback();
        return Ok(ItemNotDeleted);
      }
      session.Commit();
      r := Ok(ItemDeleted);
    }

    /** `UpdateItemImage(item_id, path)` as written: the upload (call 0); on status 200 the image
        id read (1), the ItemImage INSERT (2) and the commit (3). A failure returns the failure
        message without a rollback; any other status falls off the end and returns None. */
    method UpdateItemImage(itemId: int, uploadStatus: int, now: int, fault: Fault) returns (r: Result<Reply, Failure>)
      requires Valid()
      modifies session
      ensures Valid()
      ensures var c := InsertItemImage(NewImage(old(session.View()), itemId, UpdatedAltText, now));
        && (Fails(fault, 0) || (uploadStatus == 200 && (Fails(fault, 1) || Fails(fault, 2))) ==>
              r == Ok(ImageNotUpdated) && session.committed == old(session.committed)
              && session.pending == old(session.pending))
        && (Passes(fault, 0) && uploadStatus != 200 ==>
              r == Ok(NoReply) && session.committed == old(session.committed)
              && session.pending == old(session.pending))
        && (uploadStatus == 200 && Fails(fault, 3) ==>
              r == Ok(ImageNotUpdated) && session.committed == old(session.committed)
              && session.pending == old(session.pending) + [c])
        && (uploadStatus == 200 && Passes(fault, 3) ==>
              r == Ok(ImageUpdated) && session.committed == Apply(old(session.View()), c)
              && session.pending == [])
    {
      r := UploadThenInsertImage(itemId, uploadStatus, now, fault, NoReply);
    }

    /** `UpdateItemImage` reporting a non-200 upload with its failure message instead of None. */
    method UpdateItemImageReported(itemId: int, uploadStatus: int, now: int, fault: Fault) returns (r: Result<Reply, Failure>)
      requires Valid()
      modifies session
      ensures Valid()
      ensures r != Ok(NoReply)
      ensures var c := InsertItemImage(NewImage(old(session.View()), itemId, UpdatedAltText, now));
        && (Fails(fault, 0) || (uploadStatus == 200 && (Fails(fault, 1) || Fails(fault, 2))) ==>
              r == Ok(ImageNotUpdated) && session.committed == old(session.committed)
              && session.pending == old(session.pending))
        && (Passes(fault, 0) && uploadStatus != 200 ==>
              r == Ok(ImageNotUpdated) && session.committed == old(session.committed)
              && session.pending == old(session.pending))
        && (uploadStatus == 200 && Fails(fault, 3) ==>
              r == Ok(ImageNotUpdated) && session.committed == old(session.committed)
              && session.pending == old(session.pending) + [c])
        && (uploadStatus == 200 && Passes(fault, 3) ==>
              r == Ok(ImageUpdated) && session.committed == Apply(old(session.View()), c)
              && session.pending == [])
    {
      r := UploadThenInsertImage(itemId, uploadStatus, now, fault, ImageNotUpdated);
    }

    /** The body shared by both image updates; `otherStatus` is the reply to a non-200 upload. */
    method UploadThenInsertImage(itemId: int, uploadStatus: int, now: int, fault: Fault, otherStatus: Reply)
      returns (r: Result<Reply, Failure>)
      requires Valid()
      modifies session
      ensures Valid()
      ensures var c := InsertItemImage(NewImage(old(session.View()), itemId, UpdatedAltText, now));
        && (Fails(fault, 0) || (uploadStatus == 200 && (Fails(fault, 1) || Fails(fault, 2))) ==>
              r == Ok(ImageNotUpdated) && session.committed == old(session.committed)
              && session.pending == old(session.pending))
        && (Passes(fault, 0) && uploadStatus != 200 ==>
              r == Ok(otherStatus) && session.committed == old(session.committed)
              && session.pending == old(session.pending))
        && (uploadStatus == 200 && Fails(fault, 3) ==>
              r == Ok(ImageNotUpdated) && session.committed == old(session.committed)
              && session.pending == old(session.pending) + [c])
        && (uploadStatus == 200 && Passes(fault, 3) ==>
              r == Ok(ImageUpdated) && session.committed == Apply(old(session.View()), c)
              && session.pending == [])
    {
      if Fails(fault, 0) {
        return Ok(ImageNotUpdated);
      }
      if uploadStatus == 200 {
        if Fails(fault, 1) {
          return Ok(ImageNotUpdated);
        }
        var imageId := GetLastID(Images);
        var c := InsertItemImage(ItemImage(imageId, itemId, ImageUrl(itemId), UpdatedAltText, now));
        if Fails(fault, 2) {
          return Ok(ImageNotUpdated);
        }
        ApplyKeepsKeys(session.View(), c);
        session.Execute(c);
        if Fails(fault, 3) {
          return Ok(ImageNotUpdated);
        }
        session.Commit();
        r := Ok(ImageUpdated);
      } else {
        r := Ok(otherStatus);
      }
    }

    /** `addNewItem` rolling back on every path that does not report success, so a failed
        upload leaves nothing pending for a later commit to make durable. */
    method AddNewItemAtomic(title: string, desc: string, altText: string, categoryId: int,
                            uploadStatus: int, now: int, fault: Fault) returns (r: Result<Reply, Failure>)
      requires Valid()
      modifies session
      ensures Valid()
      ensures r == Ok(ItemAdded(title)) <==> uploadStatus == 200 && Passes(fault, 6)
      ensures r != Ok(ItemAdded(title)) ==>
        session.committed == old(session.committed) && session.pending == []
        && r in {Err(ServerError), Ok(ItemNotAdded(title))}
      ensures Passes(fault, 3) && uploadStatus != 200 ==> r == Ok(ItemNotAdded(title))
      ensures uploadStatus == 200 && Passes(fault, 6) ==>
        session.committed == ApplyAll(old(session.View()), NewItemChanges(old(session.View()), title, desc, altText, categoryId, now))
        && session.pending == []
    {
      r := AddNewItem(title, desc, altText, categoryId, uploadStatus, now, fault);
      if r != Ok(ItemAdded(title)) {
        session.Rollback();
      }
    }
  }

  const NoTables := Tables([], [], [], [])

  /** `updateCategory` on an id no category has: as written it reports the update; with the
      lookup awaited it reports the category missing. */
  method UpdateMissingCategoryScenario() returns (asWritten: Result<Reply, Failure>, corrected: Result<Reply, Failure>)
    ensures asWritten == Ok(CategoryUpdated("Toys"))
    ensures corrected == Ok(CategoryMissing)
  {
    var session := new Session(NoTables);
    var db := new Supabase(session);
    asWritten := db.UpdateCategory(7, "Toys", "", 0, NoFault);
    assert session.View() == NoTables;
    corrected := db.UpdateCategoryChecked(7, "Toys", "", 0, NoFault);
  }

  /** `deleteCategory` on an id no category has: reported deleted as written, missing when checked. */
  method DeleteMissingCategoryScenario() returns (asWritten: Result<Reply, Failure>, corrected: Result<Reply, Failure>)
    ensures asWritten == Ok(CategoryDeleted)
    ensures corrected == Ok(CategoryMissing)
  {
    var session := new Session(NoTables);
    var db := new Supabase(session);
    asWritten := db.DeleteCategory(7, NoFault);
    assert session.View() == NoTables;
    corrected := db.DeleteCategoryChecked(7, NoFault);
  }

  /** A failed upload in `addNewItem` reports the item as not added, yet the next
      `addCategory` commits the item and its category link, with no image. */
  method FailedUploadScenario() returns (reply: Result<Reply, Failure>, asWritten: Tables, corrected: Tables)
    ensures reply == Ok(ItemNotAdded("Lamp"))
    ensures |asWritten.items| == 1 && |asWritten.itemCategories| == 1 && asWritten.itemImages == []
    ensures corrected.items == [] && corrected.itemCategories == [] && corrected.itemImages == []
  {
    var session := new Session(NoTables);
    var db := new Supabase(session);
    reply := db.AddNewItem("Lamp", "", "", 1, 500, 0, NoFault);
    ghost var cs := NewItemChanges(NoTables, "Lamp", "", "", 1, 0);
    assert session.View() == Apply(Apply(NoTables, cs[0]), cs[1]) by {
      assert session.committed == NoTables && session.pending == [cs[0], cs[1]];
      assert [cs[0], cs[1]][1..] == [cs[1]] && [cs[1]][1..] == [];
      var t1 := Apply(NoTables, cs[0]);
      assert ApplyAll(t1, [cs[1]]) == Apply(t1, cs[1]);
    }
    var added := db.AddCategory("Toys", "", 0, NoFault);
    asWritten := session.committed;

    var session2 := new Session(NoTables);
    var db2 := new Supabase(session2);
    var reply2 := db2.AddNewItemAtomic("Lamp", "", "", 1, 500, 0, NoFault);
    var added2 := db2.AddCategory("Toys", "", 0, NoFault);
    corrected := session2.committed;
  }

  /** A non-200 upload in `UpdateItemImage`: None as written, the failure message when reported. */
  method FailedImageUploadScenario() returns (asWritten: Result<Reply, Failure>, corrected: Result<Reply, Failure>)
    ensures asWritten == Ok(NoReply)
    ensures corrected == Ok(ImageNotUpdated)
  {
    var session := new Session(NoTables);
    var db := new Supabase(session);
    asWritten := db.UpdateItemImage(1, 404, 0, NoFault);
    corrected := db.UpdateItemImageReported(1, 404, 0, NoFault);
  }
}
