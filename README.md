# Catalog store router, modelled in Dafny

This project models the `Supabase` class of `app/routers/supabase.py`, the
layer of the catalog back end that talks to the store. The class has two parts.

- **Listings and counts.** `categories`, `count_categories`, `items` and
  `count_items` turn an already parsed JSON filter, a `[field, order]` sort and a
  `[start, end]` range into a query: a list of predicates (`IN`, `ILIKE '%v%'`,
  `=`), an optional ORDER BY, and OFFSET/LIMIT. A mixed list raises an error
  instead. The queries run against a reference semantics over rows in memory:
  WHERE is a filter that keeps order, ORDER BY is a stable sort on a total
  preorder of values (NULL last when ascending, as in PostgreSQL), and
  OFFSET/LIMIT is a slice. A negative OFFSET or LIMIT is a store error.
  - `items` reads a joined and grouped view: one row per item and distinct
    linked category name, `MIN(url)` over the item's images, and nothing for an
    item without a category or an image.
  - `count_items` counts the Item table alone.
- **Write paths.** `getLastID`, `addCategory`, `updateCategory`,
  `deleteCategory`, `addNewItem`, `DeleteItembyID` and `UpdateItemImage` change
  four tables (Category, Item, ItemCategory, ItemImage) through a shared session.
  The session holds the committed tables and the statements run since the last
  commit or rollback; reads see the pending statements.
  - Every call that can raise is numbered: each statement, commit, `getLastID`
    read and upload. A `Fault` names the call that raises, so every method states
    its reply and its new committed and pending state for every failure point.
    Each one also keeps primary keys distinct.

Modules:

- `Json`: Python JSON values.
- `Text`: ASCII case folding, string order, decimal text.
- `Like`: ILIKE patterns.
- `Query`: filter, sort and range translation.
- `Semantics`: the reference WHERE / ORDER BY / OFFSET-LIMIT.
- `Filters` and `Listing`: properties of the translation and of a listing.
- `ItemCount`: how `count_items` relates to `items`.
- `Tables`: records, statements, `max + 1` allocation, the rows each listing reads.
- `Store`: the session.
- `Catalog`: the `Supabase` class.

## Model

| member | source | states |
|---|---|---|
| Catalog.Supabase.constructor | app/routers/supabase.py:19-33 | the router works over one shared session whose tables, committed and as the session sees them with its pending statements, hold distinct primary keys |
| Filters.CategoryFilterMeaning | app/routers/supabase.py:95-110 | the translated Category filter accepts a row exactly when every recognised entry holds: an all-str or all-int list is membership, a string is a case-insensitive `%v%` match, anything else is equality |
| Filters.CategoryFilterError | app/routers/supabase.py:99-106 | translation fails exactly when some recognised key holds a list that is neither all strings nor all ints, and the error names the first such key |
| Filters.TranslateStopsAtError | app/routers/supabase.py:95-106 | once one entry raises, the entries after it change nothing |
| Filters.CountCategoriesSameDispatch | app/routers/supabase.py:56-67 | `count_categories` builds the same predicates as `categories` or fails with the same key |
| Filters.BoolListIsIntList | app/routers/supabase.py:59-61 | a list of booleans passes the all-int test and becomes membership |
| Filters.CategoryUnknownKeysIgnored | app/routers/supabase.py:95-97 | entries whose key is not a Category column add no predicate |
| Filters.ItemUnknownKeysIgnored | app/routers/supabase.py:175-177 | entries whose key is not an Item column add no predicate |
| Filters.ItemFilterMeaning | app/routers/supabase.py:175-177 | the Item filter never fails and accepts a row exactly when each recognised column equals its value, whatever the value's type |
| Filters.KnownEntries | app/routers/supabase.py:57 | keeps exactly the entries whose key names a column (membership both ways); `Filters.CategoryUnknownKeysIgnored` and `Filters.ItemUnknownKeysIgnored` show that translating it gives the same result as translating the whole filter |
| Filters.KnownEntriesAppend | app/routers/supabase.py:57 | filtering a concatenation filters each part, so the kept entries stay in the filter's order |
| Like.PlainSubstring | app/routers/supabase.py:108 | for a value without `%`, `_` or `\`, `ilike('%v%')` holds exactly when the value occurs in the text ignoring case |
| Like.UnderscoreIsWildcard | app/routers/supabase.py:108 | a `_` in the value matches any character, so the filter `"_"` accepts `"abc"`, which does not contain `_` |
| Query.Direction | app/routers/supabase.py:116-119 | ascending exactly when the order equals "ASC" ignoring case, descending otherwise |
| Query.CategoryOrder | app/routers/supabase.py:112-119 | orders by the named Category column, and only when the field is one |
| Query.ItemOrder | app/routers/supabase.py:180-193 | orders by an Item column, or by `Category.name` for the field "category", and adds no order for any other field |
| Query.CategoryEntry | app/routers/supabase.py:99-110 | one `categories` filter entry: no predicate for a key that names no column; membership for an all-str or all-int list; an error naming the key for any other list; `ILIKE '%v%'` for a string; equality otherwise. Its meaning is stated by `Filters.CategoryFilterMeaning` and `Filters.CategoryFilterError` |
| Query.CountCategoryEntry | app/routers/supabase.py:59-67 | the same dispatch in `count_categories`, which tests all-str or all-int in one condition; `Filters.CountCategoriesSameDispatch` shows it builds the same predicates and fails on the same key |
| Query.ItemEntry | app/routers/supabase.py:176-177 | one `items` filter entry: equality for a key that names an Item column, nothing otherwise, never an error; its meaning is stated by `Filters.ItemFilterMeaning` |
| Query.Translate | app/routers/supabase.py:95-110 | the loop over the filter's entries: one predicate per recognised entry, in order, and the first error stops it. `Filters.TranslateStopsAtError` states the stop, and `Filters.CategoryUnknownKeysIgnored` and `Filters.ItemUnknownKeysIgnored` state the skipping |
| Query.CategoriesQuery | app/routers/supabase.py:94-124 | the statement `categories` executes, or its filter error. `Listing.CategoriesPage` states the page it yields, `Listing.CategoryCountMatchesListing` its agreement with the count, and `Listing.CategoriesDefaults` its defaults |
| Query.ItemsQuery | app/routers/supabase.py:174-200 | the statement `items` applies to the joined view. `Listing.ItemsPage` states its page, `ItemCount.ItemCountMatchesListing` its agreement with the count, and `Listing.ItemsDefaults` its defaults |
| Semantics.Select | app/routers/supabase.py:94-110 | WHERE keeps every row that satisfies all predicates and only such rows, without adding rows |
| Semantics.SortBy | app/routers/supabase.py:117-119 | ORDER BY returns a permutation of its input, sorted by the column in the chosen direction |
| Semantics.Page | app/routers/supabase.py:124 | OFFSET/LIMIT returns at most `limit` rows, the contiguous run starting at `offset`, short only at the end |
| Semantics.Holds | app/routers/supabase.py:105-110 | one WHERE predicate on one row: membership, ILIKE on a string field, or equality, where `col == None` is `IS NULL`; a value of another type never matches. Its meaning over a filter is stated by `Filters.CategoryFilterMeaning` and `Filters.ItemFilterMeaning` |
| Semantics.Run | app/routers/supabase.py:121-127 | executes a statement: WHERE, then ORDER BY, then OFFSET/LIMIT, with no result for a negative OFFSET or LIMIT. `Listing.ListingSound`, `Listing.ListingOrdered` and `Listing.CategoriesPage` state what it returns |
| Listing.ListingSound | app/routers/supabase.py:94-127 | every listed row is a row of the table and satisfies the filter |
| Listing.ListingOrdered | app/routers/supabase.py:112-127 | the listed rows follow the requested order |
| Listing.CategoriesPage | app/routers/supabase.py:121-124 | `categories(f, [start, end])` uses OFFSET `start` and LIMIT `end - start + 1`: the page exists exactly when both are non-negative, holds at most `end - start + 1` rows, is the run of the ordered selection that starts at row `start`, and is short only at the end |
| Listing.ItemsPage | app/routers/supabase.py:196-200 | `items(f, [start, end])` uses OFFSET `start` and LIMIT `end - start + 1` after grouping and ordering, with the same guarantees |
| Listing.KeyColumnNoTies | app/routers/supabase.py:113-119 | ordering by a column whose value identifies the row, such as a primary key, leaves no ties |
| Listing.SortedUnique | app/routers/supabase.py:117-119 | without ties, two orderings of the same rows by the same column are equal |
| Listing.DescIsReversedAsc | app/routers/supabase.py:116-119 | without ties, `ORDER BY c DESC` is `ORDER BY c ASC` reversed |
| Listing.ListingDescIsReversedAsc | app/routers/supabase.py:113-124 | over a range that holds every selected row, the DESC listing is the ASC listing reversed when the column has no ties |
| Listing.CategoriesDescIsReversedAsc | app/routers/supabase.py:112-124 | `categories(f, [0, end], [field, "DESC"])` is `categories(f, [0, end], [field, "ASC"])` reversed when the range holds every match and the field has no ties |
| Listing.ItemsDescIsReversedAsc | app/routers/supabase.py:180-200 | the same for `items`, for an Item column or "category" |
| Listing.CategoriesDefaultQuery | app/routers/supabase.py:81 | the defaults `'{}'`, `'[0,24]'` and `'["id","DESC"]'` build the statement with no WHERE, ORDER BY id DESC, OFFSET 0 and LIMIT 25 |
| Listing.ItemsDefaultQuery | app/routers/supabase.py:135 | the defaults `'{}'`, `'[0,9]'` and `'["id","ASC"]'` build the statement with no WHERE, ORDER BY id ASC, OFFSET 0 and LIMIT 10 |
| Listing.CategoriesDefaults | app/routers/supabase.py:81-124 | with its defaults, `categories` lists at most 25 rows, a prefix of the table sorted by descending id |
| Listing.ItemsDefaults | app/routers/supabase.py:135-200 | with its defaults, `items` lists at most 10 rows, a prefix of the joined view sorted by ascending id |
| Listing.CountAgreesWithListing | app/routers/supabase.py:69 | a first page at least as large as the count lists exactly the counted rows |
| Listing.CategoryCountMatchesListing | app/routers/supabase.py:53-69 | `count_categories(f)` equals the number of rows `categories(f, [0, end])` lists when the range is wide enough, whatever the sort |
| Tables.MinStr | app/routers/supabase.py:151 | `MIN(url)` is one of the group's urls and no greater than any of them |
| Tables.Distinct | app/routers/supabase.py:172 | grouping by category name keeps each linked name once |
| ItemCount.GroupsOnePerItem | app/routers/supabase.py:144-172 | when each item has one linked name and an image, the joined view holds one row per item, in order |
| ItemCount.CountMatchesViewWhenOneRowPerItem | app/routers/supabase.py:446-452 | under that condition `count_items(f)` equals the number of joined rows the same filter accepts |
| ItemCount.ItemCountMatchesListing | app/routers/supabase.py:446-452 | under that condition the first `items` page wide enough lists exactly `count_items(f)` rows |
| ItemCount.ImagelessItemCountedNotListed | app/routers/supabase.py:152-157 | an item without an image is counted but not listed |
| ItemCount.TwoCategoryItemListedTwice | app/routers/supabase.py:172 | an item linked to two categories is counted once but listed twice |
| Tables.MaxId | app/routers/supabase.py:439-440 | `max(id)` is NULL on an empty table and otherwise an id no smaller than any other |
| Tables.NextId | app/routers/supabase.py:437-441 | `getLastID` is 1 on an empty table and `max(id) + 1` otherwise, so above every existing id |
| Tables.ApplyKeepsKeys | app/routers/supabase.py:250-258 | a statement whose inserted id came from `getLastID` keeps every primary key distinct |
| Tables.Keep | app/routers/supabase.py:377-389 | `DELETE ... WHERE` keeps exactly the rows the condition does not match |
| Tables.Apply | app/routers/supabase.py:250-258 | the effect of one INSERT, UPDATE or DELETE on the tables. `Tables.ApplyKeepsKeys`, `Tables.UpdateCategoryEffect` and `Catalog.DeleteItemEffect` state it |
| Tables.SetCategory | app/routers/supabase.py:275-281 | the UPDATE of `updateCategory`; its effect is stated by `Tables.UpdateCategoryEffect` |
| Tables.UpdateCategoryEffect | app/routers/supabase.py:275-281 | the rows with the id get the new name, description and timestamp; every other row stays; every row keeps its key and place; no other table changes; an absent id changes nothing |
| Tables.ItemRows | app/routers/supabase.py:144-172 | the joined view `items` reads: one row per item and distinct linked category name, with the least image url, and none for an item without a link or an image. `ItemCount.GroupsOnePerItem`, `ItemCount.ViewRowFilter`, `ItemCount.ImagelessItemCountedNotListed` and `ItemCount.TwoCategoryItemListedTwice` state it |
| ItemCount.ViewRowFilter | app/routers/supabase.py:174-177 | a joined row passes an Item filter exactly when its item's own row does |
| Store.Session.Execute | app/routers/supabase.py:258 | a statement is pending and later reads see it |
| Store.Session.Commit | app/routers/supabase.py:259 | the pending statements become the committed tables |
| Store.Session.Rollback | app/routers/supabase.py:395 | the pending statements are discarded and the committed tables stay |
| Text.IntStringRoundTrip | app/routers/supabase.py:338 | the decimal text of an id reads back as that id |
| Catalog.ImageUrl | app/routers/supabase.py:339-350 | the image url of an item; `Catalog.ImageUrlRoundTrip` and `Catalog.ImageUrlInjective` state its shape and that it identifies the item |
| Catalog.ImageUrlRoundTrip | app/routers/supabase.py:339-350 | the url is the bucket prefix, then the item id in decimal, then ".jpg", and the id reads back from the middle |
| Catalog.ImageUrlInjective | app/routers/supabase.py:338-350 | two items never get the same image url |
| Catalog.NewItemChanges | app/routers/supabase.py:318-352 | the new Item id is above every existing one; the link and the image refer to that id; the image url is built from it; the image id is fresh |
| Catalog.DeleteItemEffect | app/routers/supabase.py:368-392 | after the three DELETEs no link, image or item refers to the id, every other row stays, and Category is untouched |
| Catalog.CategoryLookup | app/routers/supabase.py:231-235 | the lookup by id is empty exactly when no category has that id, and returns only rows with that id |
| Catalog.Supabase.GetLastID | app/routers/supabase.py:437-441 | returns `max + 1` of the table's ids as the session sees them, above every one of them |
| Catalog.Supabase.CountCategories | app/routers/supabase.py:48-78 | a mixed list re-raises its error, a store failure propagates, otherwise the number of matching Category rows |
| Catalog.Supabase.Categories | app/routers/supabase.py:81-132 | returns the reference listing of the translated query; a mixed list, a negative range or a store failure rolls back and raises a server error |
| Catalog.Supabase.Items | app/routers/supabase.py:135-208 | returns the reference listing over the joined view; a negative range or a store failure rolls back and raises a server error |
| Catalog.Supabase.CountItems | app/routers/supabase.py:446-452 | the number of Item rows equal to every recognised entry; a store failure propagates |
| Catalog.Supabase.AddCategory | app/routers/supabase.py:245-264 | inserts one category with a fresh id and commits; every failure raises a server error without a rollback, so a failed commit leaves the INSERT pending |
| Catalog.Supabase.UpdateCategory | app/routers/supabase.py:266-291 | as written: always runs the UPDATE and commits, even for an absent id |
| Catalog.Supabase.DeleteCategory | app/routers/supabase.py:293-311 | as written: always runs the DELETE and commits, even for an absent id |
| Catalog.Supabase.GetCategoryByID | app/routers/supabase.py:231-238 | the awaited lookup: empty exactly when the id is absent; a failure raises a server error |
| Catalog.Supabase.UpdateCategoryChecked | app/routers/supabase.py:266-291 | with the lookup awaited: an absent id changes nothing and reports the category missing; a present id is updated and committed |
| Catalog.Supabase.DeleteCategoryChecked | app/routers/supabase.py:293-311 | with the lookup awaited: an absent id changes nothing and reports the category missing; a present id is deleted and committed |
| Catalog.Supabase.AddNewItem | app/routers/supabase.py:313-366 | Item and link inserted under one fresh id; only an upload answering 200 adds the image and commits; any other status reports failure with the two INSERTs left pending; every failure point is stated |
| Catalog.Supabase.AddNewItemAtomic | app/routers/supabase.py:313-366 | reports success exactly when the three INSERTs are committed; on every other path the committed tables are unchanged and nothing is left pending |
| Catalog.Supabase.DeleteItemById | app/routers/supabase.py:368-401 | never raises; success commits the three DELETEs; any failure rolls back, committed tables unchanged |
| Catalog.Supabase.UpdateItemImage | app/routers/supabase.py:405-432 | as written: on status 200 inserts an image row with a fresh id and commits; a failure returns the failure message without a rollback; any other status returns None |
| Catalog.Supabase.UpdateItemImageReported | app/routers/supabase.py:405-432 | the same, except that a non-200 upload returns the failure message and never None |
| Catalog.UpdateMissingCategoryScenario | app/routers/supabase.py:272-287 | on an empty table the update of id 7 is reported done as written, and missing when checked |
| Catalog.DeleteMissingCategoryScenario | app/routers/supabase.py:298-307 | on an empty table the delete of id 7 is reported done as written, and missing when checked |
| Catalog.FailedUploadScenario | app/routers/supabase.py:340-362 | after a failed upload the next `addCategory` commits the item and its link with no image; with rollback nothing of the item is committed |
| Catalog.FailedImageUploadScenario | app/routers/supabase.py:409-423 | a 404 upload yields None as written, the failure message when reported |

## Left out

- Connection set-up and reconnect logic (`_connect`, `_retry_on_failure`, lines 23-46). They are I/O against an external store.
- The `ImageUploader` network call. Only its outcome is modelled: a status code, or a fault at its call number.
- `json.loads`. Filters arrive as parsed sequences of key/value pairs, and ranges and sorts as typed pairs.
  - Malformed JSON, a range or sort of the wrong length, and duplicate keys are not modelled; duplicate keys would be separate entries here.
  - JSON numbers with a fraction (Python floats) are not modelled.
- Column lookup with `hasattr` on SQLAlchemy's column collection. Only the four column names are recognised. Attribute names of the collection itself (such as `keys`) are not.
- SQL type coercion. The driver sends filter values as untyped literals that PostgreSQL casts to the column's type, so `Item.id = '5'` or `Category.id IN ('1','2')` can match, and an uncastable literal is a store error. The model compares values without casting: every comparison between different types does not match, including the ones PostgreSQL coerces and answers. This affects the equality filters of `items` and `count_items` and the IN lists of `categories` and `count_categories`. ILIKE on an integer column likewise never matches here.
- The case fold of ILIKE and of `str.upper()` is ASCII. Unicode mappings (`'ſ'.upper() == 'S'`, for example) and collations are not modelled.
- Ties under ORDER BY keep their input order here. SQL leaves that order unspecified.
- Items result rows carry every Item column plus the category name and the url under their table columns. The source's result mapping names them `category` and `url` and omits `created_at`.
- `getItembyID` (lines 211-229) is not part of this model. `getCategoryByID` is modelled only as the awaited lookup of the corrected paths.
- `UpdateItem` (lines 402-403) is an empty stub.
- `datetime.now()` is an integer timestamp passed in. Logging, `HTTPException` details and `Messages` formatting become reply and failure tags.
- A failed statement leaves a SQLAlchemy session needing a rollback; this is not modelled. A fault only stops the method at that call.
- Async scheduling and concurrent callers, including the race between two `max + 1` allocations, are not modelled.

## Findings

| source | as written | input that shows it | evidently intended | confidence | as-written member | corrected member |
|---|---|---|---|---|---|---|
| app/routers/supabase.py:272 | `self.getCategoryByID(category_id) is not None` tests an unawaited coroutine, which is never None | `updateCategory(7, "Toys", "")` on an empty Category table replies "Toys Category Updated." (Catalog.UpdateMissingCategoryScenario) | await the lookup and reply "Category does not exist" when it finds no row | high, not executed | Catalog.Supabase.UpdateCategory | Catalog.Supabase.UpdateCategoryChecked |
| app/routers/supabase.py:298 | the same never-None guard in `deleteCategory` | `deleteCategory(7)` on an empty Category table replies "Category Deleted Successfully." (Catalog.DeleteMissingCategoryScenario) | await the lookup and reply "Category does not exist" when it finds no row | high, not executed | Catalog.Supabase.DeleteCategory | Catalog.Supabase.DeleteCategoryChecked |
| app/routers/supabase.py:341-362 | a non-200 upload returns "was not added" without a rollback, so the Item and ItemCategory INSERTs stay pending | `addNewItem("Lamp", ..., categoryID=1)` with upload status 500, then `addCategory("Toys", "")`: the item and its link are committed with no image (Catalog.FailedUploadScenario) | roll back the pending INSERTs when the item is reported as not added | medium, not executed | Catalog.Supabase.AddNewItem | Catalog.Supabase.AddNewItemAtomic |
| app/routers/supabase.py:409-423 | a non-200 upload falls off the end of the `if` and the method returns None | `UpdateItemImage(1, path)` with upload status 404 returns None (Catalog.FailedImageUploadScenario) | return the "Image was not updated" message | medium, not executed | Catalog.Supabase.UpdateItemImage | Catalog.Supabase.UpdateItemImageReported |
