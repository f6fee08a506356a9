/**
  Properties of a finished listing: every row returned passes the filter and
  comes from the table, rows follow the requested order, a page never holds
  more than `end - start + 1` rows, and the count agrees with the listing.
 */
module Listing {
  import opened Wrappers
  import opened Json
  import opened Text
  import opened Query
  import opened Semantics
  import opened Filters

  lemma ArrangeIsPermutation(s: seq<Row>, order: Option<Order>)
    ensures multiset(Arrange(s, order)) == multiset(s)
    ensures |Arrange(s, order)| == |s|
  {
    assert |multiset(Arrange(s, order))| == |multiset(s)|;
  }

  lemma PageMember(s: seq<Row>, offset: nat, limit: nat, r: Row)
    requires r in Page(s, offset, limit)
    ensures r in s
  {
    var p := Page(s, offset, limit);
    var i :| 0 <= i < |p| && p[i] == r;
    assert s[offset + i] == r;
  }

  lemma SelectMember(ps: seq<Pred>, rows: seq<Row>, r: Row)
    requires r in Select(ps, rows)
    ensures r in rows && HoldsAll(ps, r)
  {
    var sel := Select(ps, rows);
    assert r in multiset(sel);
    assert r in multiset(rows);
    var k :| 0 <= k < |sel| && sel[k] == r;
  }

  /** Every listed row is a row of the table that satisfies all the predicates. */
  lemma ListingSound(q: Query, rows: seq<Row>, r: Row)
    requires Run(q, rows).Some? && r in Run(q, rows).value
    ensures r in rows && HoldsAll(q.preds, r)
  {
    var sel := Select(q.preds, rows);
    var all := Arrange(sel, q.order);
    assert Run(q, rows).value == Page(all, q.offset, q.limit);
    PageMember(all, q.offset, q.limit, r);
    ArrangeIsPermutation(sel, q.order);
    assert r in multiset(all);
    assert r in multiset(sel);
    SelectMember(q.preds, rows, r);
  }

  lemma PageSorted(s: seq<Row>, offset: nat, limit: nat, o: Order)
    requires SortedBy(s, o)
    ensures SortedBy(Page(s, offset, limit), o)
  {
    var p := Page(s, offset, limit);
    forall i, j | 0 <= i < j < |p| ensures RowLe(p[i], p[j], o) {
      assert p[i] == s[offset + i] && p[j] == s[offset + j];
    }
  }

  /** Under an ORDER BY the page is in that order. */
  lemma ListingOrdered(q: Query, rows: seq<Row>)
    requires Run(q, rows).Some? && q.order.Some?
    ensures SortedBy(Run(q, rows).value, q.order.value)
  {
    var all := SortBy(Select(q.preds, rows), q.order.value);
    assert Run(q, rows).value == Page(all, q.offset, q.limit);
    PageSorted(all, q.offset, q.limit, q.order.value);
  }

  /** A page that starts at 0 and is long enough holds exactly the rows that are counted. */
  lemma CountAgreesWithListing(q: Query, rows: seq<Row>)
    requires q.offset == 0 && q.limit >= Count(q.preds, rows)
    ensures Run(q, rows).Some?
    ensures |Run(q, rows).value| == Count(q.preds, rows)
    ensures multiset(Run(q, rows).value) == multiset(Select(q.preds, rows))
  {
    var sel := Select(q.preds, rows);
    var all := Arrange(sel, q.order);
    ArrangeIsPermutation(sel, q.order);
    var page := Run(q, rows).value;
    assert page == all;
  }

  /** The range `[start, end]` of `categories`: the listing exists exactly when OFFSET and
      LIMIT are non-negative, holds at most `end - start + 1` rows, and is the contiguous run
      of the ordered selection that starts at `start`. */
  lemma CategoriesPage(f: Filter, start: int, end: int, sortField: string, sortOrder: string, rows: seq<Row>)
    requires CategoriesQuery(f, start, end, sortField, sortOrder).Ok?
    ensures var q := CategoriesQuery(f, start, end, sortField, sortOrder).value;
      && (Run(q, rows).Some? <==> 0 <= start <= end + 1)
      && (Run(q, rows).Some? ==>
            var page := Run(q, rows).value;
            var all := Arrange(Select(q.preds, rows), q.order);
            |page| <= end - start + 1
            && (forall i :: 0 <= i < |page| ==> page[i] == all[start + i])
            && (|page| == end - start + 1 || start + |page| >= |all|))
  {
  }

  /** The range `[start, end]` of `items`, with the same guarantees over the joined rows. */
  lemma ItemsPage(f: Filter, start: int, end: int, sortField: string, sortOrder: string, rows: seq<Row>)
    requires Translate(f, ItemEntry).Ok?
    ensures var q := ItemsQuery(f, start, end, sortField, sortOrder);
      && (Run(q, rows).Some? <==> 0 <= start <= end + 1)
      && (Run(q, rows).Some? ==>
            var page := Run(q, rows).value;
            var all := Arrange(Select(q.preds, rows), q.order);
            |page| <= end - start + 1
            && (forall i :: 0 <= i < |page| ==> page[i] == all[start + i])
            && (|page| == end - start + 1 || start + |page| >= |all|))
  {
  }

  /** `count_categories(filter)` equals the number of rows `categories(filter, [0, end])`
      lists whenever the range is wide enough, whatever the sort. */
  lemma CategoryCountMatchesListing(f: Filter, end: int, sortField: string, sortOrder: string, rows: seq<Row>)
    requires Translate(f, CountCategoryEntry).Ok?
    requires end + 1 >= Count(Translate(f, CountCategoryEntry).value, rows)
    ensures CategoriesQuery(f, 0, end, sortField, sortOrder).Ok?
    ensures Run(CategoriesQuery(f, 0, end, sortField, sortOrder).value, rows).Some?
    ensures |Run(CategoriesQuery(f, 0, end, sortField, sortOrder).value, rows).value|
         == Count(Translate(f, CountCategoryEntry).value, rows)
  {
    CountCategoriesSameDispatch(f);
    CountAgreesWithListing(CategoriesQuery(f, 0, end, sortField, sortOrder).value, rows);
  }

  // Reversing the direction.

  /** Two rows of `s` that the order cannot tell apart are the same row. */
  predicate NoTies(s: seq<Row>, o: Order) {
    forall a, b :: a in s && b in s && RowLe(a, b, o) && RowLe(b, a, o) ==> a == b
  }

  /** Apart from lists and objects, values that sort both ways round are equal. */
  lemma ValueLeAntisym(a: Value, b: Value)
    requires !a.List? && !a.Obj?
    requires ValueLe(a, b) && ValueLe(b, a)
    ensures a == b
  {
    if a.Str? {
      StrLeAntisym(a.s, b.s);
    }
  }

  /** Ordering by a column that holds a scalar key of the rows (such as `id`) has no ties. */
  lemma KeyColumnNoTies(s: seq<Row>, o: Order)
    requires forall r :: r in s ==> !Field(r, o.col).List? && !Field(r, o.col).Obj?
    requires forall a, b :: a in s && b in s && Field(a, o.col) == Field(b, o.col) ==> a == b
    ensures NoTies(s, o)
  {
    forall a, b | a in s && b in s && RowLe(a, b, o) && RowLe(b, a, o) ensures a == b {
      ValueLeAntisym(Field(a, o.col), Field(b, o.col));
    }
  }

  function Reverse(s: seq<Row>): (r: seq<Row>)
    ensures |r| == |s| && multiset(r) == multiset(s)
    ensures forall i :: 0 <= i < |s| ==> r[i] == s[|s| - 1 - i]
  {
    if s == [] then []
    else
      assert s == [s[0]] + s[1..];
      Reverse(s[1..]) + [s[0]]
  }

  /** Without ties, two sorted arrangements of the same rows start with the same row. */
  lemma SortedHeads(x: seq<Row>, y: seq<Row>, o: Order)
    requires multiset(x) == multiset(y) && x != [] && y != []
    requires SortedBy(x, o) && SortedBy(y, o) && NoTies(x, o)
    ensures x[0] == y[0]
  {
    assert y[0] in multiset(x) && x[0] in multiset(y);
    var i :| 0 <= i < |x| && x[i] == y[0];
    var j :| 0 <= j < |y| && y[j] == x[0];
    RowLeTotal(x[0], x[0], o);
    assert RowLe(x[0], y[0], o);
    assert RowLe(y[0], x[0], o);
  }

  lemma TailsPermuted(x: seq<Row>, y: seq<Row>)
    requires multiset(x) == multiset(y) && x != [] && y != [] && x[0] == y[0]
    ensures multiset(x[1..]) == multiset(y[1..])
  {
    assert x == [x[0]] + x[1..] && y == [y[0]] + y[1..];
    assert multiset(x) == multiset{x[0]} + multiset(x[1..]);
    assert multiset(y) == multiset{y[0]} + multiset(y[1..]);
    forall e ensures multiset(x[1..])[e] == multiset(y[1..])[e] {
      assert multiset(x)[e] == multiset(y)[e];
    }
  }

  /** Without ties, a sequence sorted by `o` is determined by its elements. */
  lemma {:induction false} SortedUnique(x: seq<Row>, y: seq<Row>, o: Order)
    requires multiset(x) == multiset(y)
    requires SortedBy(x, o) && SortedBy(y, o) && NoTies(x, o)
    ensures x == y
    decreases |x|
  {
    assert |y| == |x| by {
      assert |multiset(y)| == |multiset(x)|;
    }
    if x != [] {
      SortedHeads(x, y, o);
      TailsPermuted(x, y);
      var xs, ys := x[1..], y[1..];
      assert SortedBy(xs, o) && SortedBy(ys, o) by {
        assert forall i :: 0 <= i < |xs| ==> xs[i] == x[i + 1];
        assert forall i :: 0 <= i < |ys| ==> ys[i] == y[i + 1];
      }
      assert NoTies(xs, o) by {
        assert forall a :: a in xs ==> a in x;
      }
      SortedUnique(xs, ys, o);
      assert x == [x[0]] + xs && y == [y[0]] + ys;
    }
  }

  /** An ascending sequence read backwards is descending. */
  lemma ReverseSorted(a: seq<Row>, c: Column)
    requires SortedBy(a, OrderBy(c, Asc))
    ensures SortedBy(Reverse(a), OrderBy(c, Desc))
  {
    var r := Reverse(a);
    forall i, j | 0 <= i < j < |r| ensures RowLe(r[i], r[j], OrderBy(c, Desc)) {
      assert r[i] == a[|a| - 1 - i] && r[j] == a[|a| - 1 - j];
    }
  }

  /** Ties do not depend on the direction, nor on the order of the rows. */
  lemma NoTiesDesc(s: seq<Row>, r: seq<Row>, c: Column)
    requires NoTies(s, OrderBy(c, Asc)) && multiset(r) == multiset(s)
    ensures NoTies(r, OrderBy(c, Desc))
  {
    forall x, y | x in r && y in r && RowLe(x, y, OrderBy(c, Desc)) && RowLe(y, x, OrderBy(c, Desc))
      ensures x == y
    {
      assert x in multiset(s) && y in multiset(s);
      assert x in s && y in s;
      assert RowLe(y, x, OrderBy(c, Asc)) && RowLe(x, y, OrderBy(c, Asc));
    }
  }

  /** Without ties, `ORDER BY c DESC` is `ORDER BY c ASC` reversed. */
  lemma DescIsReversedAsc(s: seq<Row>, c: Column)
    requires NoTies(s, OrderBy(c, Asc))
    ensures SortBy(s, OrderBy(c, Desc)) == Reverse(SortBy(s, OrderBy(c, Asc)))
  {
    var a := SortBy(s, OrderBy(c, Asc));
    var d := SortBy(s, OrderBy(c, Desc));
    var r := Reverse(a);
    ReverseSorted(a, c);
    NoTiesDesc(s, r, c);
    SortedUnique(r, d, OrderBy(c, Desc));
  }

  lemma FullPage(s: seq<Row>, limit: nat)
    requires limit >= |s|
    ensures Page(s, 0, limit) == s
  {
  }

  /** Over a range that holds every selected row and a column without ties, the `DESC`
      listing is the `ASC` listing reversed. */
  lemma ListingDescIsReversedAsc(ps: seq<Pred>, c: Column, rows: seq<Row>, limit: int)
    requires limit >= Count(ps, rows)
    requires NoTies(rows, OrderBy(c, Asc))
    ensures Run(Query(ps, Some(OrderBy(c, Asc)), 0, limit), rows).Some?
    ensures Run(Query(ps, Some(OrderBy(c, Desc)), 0, limit), rows).Some?
    ensures Run(Query(ps, Some(OrderBy(c, Desc)), 0, limit), rows).value
         == Reverse(Run(Query(ps, Some(OrderBy(c, Asc)), 0, limit), rows).value)
  {
    var sel := Select(ps, rows);
    forall x, y | x in sel && y in sel && RowLe(x, y, OrderBy(c, Asc)) && RowLe(y, x, OrderBy(c, Asc))
      ensures x == y
    {
      SelectMember(ps, rows, x);
      SelectMember(ps, rows, y);
    }
    DescIsReversedAsc(sel, c);
    var up, down := SortBy(sel, OrderBy(c, Asc)), SortBy(sel, OrderBy(c, Desc));
    FullPage(up, limit);
    FullPage(down, limit);
  }

  /** `categories(f, [0, end], [field, "DESC"])` lists `categories(f, [0, end], [field, "ASC"])`
      in reverse, when the range holds every match and the field has no ties. */
  lemma CategoriesDescIsReversedAsc(f: Filter, end: int, sortField: string, rows: seq<Row>)
    requires sortField in CategoryColumns
    requires Translate(f, CategoryEntry).Ok?
    requires end + 1 >= Count(Translate(f, CategoryEntry).value, rows)
    requires NoTies(rows, OrderBy(Column(CategoryTable, sortField), Asc))
    ensures CategoriesQuery(f, 0, end, sortField, "ASC").Ok? && CategoriesQuery(f, 0, end, sortField, "DESC").Ok?
    ensures Run(CategoriesQuery(f, 0, end, sortField, "ASC").value, rows).Some?
    ensures Run(CategoriesQuery(f, 0, end, sortField, "DESC").value, rows).Some?
    ensures Run(CategoriesQuery(f, 0, end, sortField, "DESC").value, rows).value
         == Reverse(Run(CategoriesQuery(f, 0, end, sortField, "ASC").value, rows).value)
  {
    DirectionLiterals();
    ListingDescIsReversedAsc(Translate(f, CategoryEntry).value, Column(CategoryTable, sortField), rows, end + 1);
  }

  /** The same for `items` over the joined rows, for an Item column or "category". */
  lemma ItemsDescIsReversedAsc(f: Filter, end: int, sortField: string, rows: seq<Row>)
    requires ItemOrder(sortField, "ASC").Some?
    requires Translate(f, ItemEntry).Ok?
    requires end + 1 >= Count(Translate(f, ItemEntry).value, rows)
    requires NoTies(rows, OrderBy(ItemOrder(sortField, "ASC").value.col, Asc))
    ensures Run(ItemsQuery(f, 0, end, sortField, "ASC"), rows).Some?
    ensures Run(ItemsQuery(f, 0, end, sortField, "DESC"), rows).Some?
    ensures Run(ItemsQuery(f, 0, end, sortField, "DESC"), rows).value
         == Reverse(Run(ItemsQuery(f, 0, end, sortField, "ASC"), rows).value)
  {
    DirectionLiterals();
    ListingDescIsReversedAsc(Translate(f, ItemEntry).value, ItemOrder(sortField, "ASC").value.col, rows, end + 1);
  }

  // The default parameters.

  /** A first page is a prefix of what it pages. */
  lemma FirstPagePrefix(s: seq<Row>, limit: nat)
    ensures Page(s, 0, limit) <= s
  {
  }

  /** A first page of `n` rows ordered by `o` is a prefix, at most `n` long, of the selected
      rows sorted by `o`. */
  lemma FirstPageSorted(ps: seq<Pred>, rows: seq<Row>, o: Order, n: nat)
    ensures Run(Query(ps, Some(o), 0, n), rows).Some?
    ensures |Run(Query(ps, Some(o), 0, n), rows).value| <= n
    ensures Run(Query(ps, Some(o), 0, n), rows).value <= SortBy(Select(ps, rows), o)
  {
    FirstPagePrefix(SortBy(Select(ps, rows), o), n);
  }

  /** Without predicates, the same prefix is taken from the whole table. */
  lemma UnfilteredFirstPage(rows: seq<Row>, o: Order, n: nat)
    ensures Run(Query([], Some(o), 0, n), rows).Some?
    ensures |Run(Query([], Some(o), 0, n), rows).value| <= n
    ensures Run(Query([], Some(o), 0, n), rows).value <= SortBy(rows, o)
  {
    SelectAll(rows);
    FirstPageSorted([], rows, o, n);
  }

  /** The statement the defaults of `categories` build. */
  lemma CategoriesDefaultQuery()
    ensures CategoriesQuery([], CategoriesDefaultRange.0, CategoriesDefaultRange.1,
                            CategoriesDefaultSort.0, CategoriesDefaultSort.1)
         == Ok(Query([], Some(OrderBy(Column(CategoryTable, "id"), Desc)), 0, 25))
  {
    DirectionLiterals();
    assert "id" in CategoryColumns;
  }

  /** The statement the defaults of `items` build. */
  lemma ItemsDefaultQuery()
    ensures Translate([], ItemEntry).Ok?
    ensures ItemsQuery([], ItemsDefaultRange.0, ItemsDefaultRange.1, ItemsDefaultSort.0, ItemsDefaultSort.1)
         == Query([], Some(OrderBy(Column(ItemTable, "id"), Asc)), 0, 10)
  {
    DirectionLiterals();
    assert "id" in ItemColumns;
  }

  /** With its defaults, `categories` lists at most 25 rows, from the first, by descending id. */
  lemma CategoriesDefaults(rows: seq<Row>)
    ensures CategoriesQuery([], CategoriesDefaultRange.0, CategoriesDefaultRange.1,
                            CategoriesDefaultSort.0, CategoriesDefaultSort.1)
         == Ok(Query([], Some(OrderBy(Column(CategoryTable, "id"), Desc)), 0, 25))
    ensures var p := Run(Query([], Some(OrderBy(Column(CategoryTable, "id"), Desc)), 0, 25), rows);
      p.Some? && |p.value| <= 25 && p.value <= SortBy(rows, OrderBy(Column(CategoryTable, "id"), Desc))
  {
    CategoriesDefaultQuery();
    UnfilteredFirstPage(rows, OrderBy(Column(CategoryTable, "id"), Desc), 25);
  }

  /** With its defaults, `items` lists at most 10 rows, from the first, by ascending id. */
  lemma ItemsDefaults(rows: seq<Row>)
    ensures Translate([], ItemEntry).Ok?
    ensures ItemsQuery([], ItemsDefaultRange.0, ItemsDefaultRange.1, ItemsDefaultSort.0, ItemsDefaultSort.1)
         == Query([], Some(OrderBy(Column(ItemTable, "id"), Asc)), 0, 10)
    ensures var p := Run(Query([], Some(OrderBy(Column(ItemTable, "id"), Asc)), 0, 10), rows);
      p.Some? && |p.value| <= 10 && p.value <= SortBy(rows, OrderBy(Column(ItemTable, "id"), Asc))
  {
    ItemsDefaultQuery();
    UnfilteredFirstPage(rows, OrderBy(Column(ItemTable, "id"), Asc), 10);
  }

  /** With no predicates WHERE keeps every row. */
  lemma {:induction false} SelectAll(rows: seq<Row>)
    ensures Select([], rows) == rows
  {
    if rows != [] {
      SelectAll(rows[1..]);
      assert rows == [rows[0]] + rows[1..];
    }
  }
}
