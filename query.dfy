/**
  The query descriptions built by `count_categories`, `categories`, `items`
  and `count_items`: WHERE predicates, an optional ORDER BY, OFFSET and LIMIT.
  Each builder walks the decoded filter object entry by entry; the functions
  here state what the finished statement is, as a fold over those entries.
 */
module Query {
  import opened Wrappers
  import opened Json
  import opened Text

  datatype TableName = CategoryTable | ItemTable | ItemCategoryTable | ItemImageTable

  /** A column of one of the four tables, as `Table.c.name`. */
  datatype Column = Column(table: TableName, name: string)

  /** `hasattr(self.Category.c, key)`. */
  const CategoryColumns: set<string> := {"id", "name", "description", "created_at"}

  /** `hasattr(self.Items.c, key)`. */
  const ItemColumns: set<string> := {"id", "title", "description", "created_at"}

  datatype Pred =
    | Member(col: Column, vals: seq<Value>)   // column.in_(vals)
    | Substr(col: Column, text: string)       // column.ilike(f"%{text}%")
    | Eq(col: Column, val: Value)             // column == val

  datatype Dir = Asc | Desc

  datatype Order = OrderBy(col: Column, dir: Dir)

  datatype Query = Query(preds: seq<Pred>, order: Option<Order>, offset: int, limit: int)

  /** The `ValueError` raised for a list that is neither all strings nor all ints. */
  datatype FilterError = IncompatibleListType(key: string)

  /** The decoded filter object, as the sequence of its `items()`. */
  type Filter = seq<(string, Value)>

  /** What one filter entry contributes: nothing, a predicate, or an error. */
  type EntryResult = Result<Option<Pred>, FilterError>

  /** The filter dispatch of `categories`: strings checked first, then ints. */
  function CategoryEntry(key: string, value: Value): EntryResult {
    if key !in CategoryColumns then Ok(None)
    else
      var col := Column(CategoryTable, key);
      match value
      case List(vs) =>
        if AllStr(vs) then Ok(Some(Member(col, vs)))
        else if AllInt(vs) then Ok(Some(Member(col, vs)))
        else Err(IncompatibleListType(key))
      case Str(s) => Ok(Some(Substr(col, s)))
      case _ => Ok(Some(Eq(col, value)))
  }

  /** The filter dispatch of `count_categories`: one combined test on the list. */
  function CountCategoryEntry(key: string, value: Value): EntryResult {
    if key !in CategoryColumns then Ok(None)
    else
      var col := Column(CategoryTable, key);
      if value.List? then
        if AllStr(value.elems) || AllInt(value.elems) then Ok(Some(Member(col, value.elems)))
        else Err(IncompatibleListType(key))
      else if value.Str? then Ok(Some(Substr(col, value.s)))
      else Ok(Some(Eq(col, value)))
  }

  /** The filter dispatch of `items` and `count_items`: plain equality. */
  function ItemEntry(key: string, value: Value): EntryResult {
    if key in ItemColumns then Ok(Some(Eq(Column(ItemTable, key), value))) else Ok(None)
  }

  /** The predicates a builder has added after walking all of `f`; the first
      failing entry stops the walk. */
  function Translate(f: Filter, entry: (string, Value) -> EntryResult): Result<seq<Pred>, FilterError> {
    if f == [] then Ok([])
    else
      match Translate(f[..|f| - 1], entry)
      case Err(e) => Err(e)
      case Ok(ps) =>
        match entry(f[|f| - 1].0, f[|f| - 1].1)
        case Err(e) => Err(e)
        case Ok(None) => Ok(ps)
        case Ok(Some(p)) => Ok(ps + [p])
  }

  /** `sort_order.upper() == "ASC"` chooses ascending order, anything else descending. */
  function Direction(sortOrder: string): (d: Dir)
    ensures d == Asc <==> EqualIgnoringCase(sortOrder, "ASC")
  {
    UpperEqIffLowerEq(sortOrder, "ASC");
    if UpperStr(sortOrder) == "ASC" then Asc else Desc
  }

  /** The two literal directions the defaults and clients use. */
  lemma DirectionLiterals()
    ensures Direction("ASC") == Asc && Direction("DESC") == Desc
  {
    assert EqualIgnoringCase("ASC", "ASC");
    assert |"DESC"| != |"ASC"|;
  }

  /** Sorting in `categories`: only a Category column orders the rows. */
  function CategoryOrder(sortField: string, sortOrder: string): (o: Option<Order>)
    ensures o.Some? <==> sortField in CategoryColumns
    ensures o.Some? ==>
      o.value.col == Column(CategoryTable, sortField) && (o.value.dir == Asc <==> EqualIgnoringCase(sortOrder, "ASC"))
  {
    if sortField in CategoryColumns then Some(OrderBy(Column(CategoryTable, sortField), Direction(sortOrder)))
    else None
  }

  /** Sorting in `items`: an Item column, or the alias "category" for `Category.name`. */
  function ItemOrder(sortField: string, sortOrder: string): (o: Option<Order>)
    ensures o.None? <==> sortField !in ItemColumns && sortField != "category"
    ensures sortField in ItemColumns ==> o.value.col == Column(ItemTable, sortField)
    ensures sortField == "category" ==> o.value.col == Column(CategoryTable, "name")
    ensures o.Some? ==> (o.value.dir == Asc <==> EqualIgnoringCase(sortOrder, "ASC"))
  {
    if sortField in ItemColumns then Some(OrderBy(Column(ItemTable, sortField), Direction(sortOrder)))
    else if sortField == "category" then Some(OrderBy(Column(CategoryTable, "name"), Direction(sortOrder)))
    else None
  }

  /** `offset(start).limit(end - start + 1)` on a query whose predicates and order are known. */
  function Paged(preds: seq<Pred>, order: Option<Order>, start: int, end: int): Query {
    Query(preds, order, start, end - start + 1)
  }

  /** The statement `categories(filter, range, sort)` executes, or the error it raises first. */
  function CategoriesQuery(f: Filter, start: int, end: int, sortField: string, sortOrder: string): Result<Query, FilterError> {
    match Translate(f, CategoryEntry)
    case Err(e) => Err(e)
    case Ok(ps) => Ok(Paged(ps, CategoryOrder(sortField, sortOrder), start, end))
  }

  /** The statement `items(filter, range, sort)` executes. */
  function ItemsQuery(f: Filter, start: int, end: int, sortField: string, sortOrder: string): Query
    requires Translate(f, ItemEntry).Ok?
  {
    Paged(Translate(f, ItemEntry).value, ItemOrder(sortField, sortOrder), start, end)
  }

  /** Default parameters of `categories`: `'{}'`, `'[0,24]'`, `'["id","DESC"]'`. */
  const CategoriesDefaultRange: (int, int) := (0, 24)
  const CategoriesDefaultSort: (string, string) := ("id", "DESC")

  /** Default parameters of `items`: `'{}'`, `'[0,9]'`, `'["id","ASC"]'`. */
  const ItemsDefaultRange: (int, int) := (0, 9)
  const ItemsDefaultSort: (string, string) := ("id", "ASC")
}
