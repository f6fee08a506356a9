/**
  What the filter translation of the listing and counting builders means:
  which rows the finished WHERE clause accepts, when translation fails,
  and that unknown keys contribute nothing.
 */
module Filters {
  import opened Wrappers
  import opened Json
  import opened Like
  import opened Query
  import opened Semantics

  /** The intended reading of one recognised Category filter entry on a stored value `x`. */
  predicate ValueMatches(x: Value, v: Value) {
    match v
    case List(vs) => x in vs
    case Str(s) => x.Str? && ILike(x.s, SubstringPattern(s))
    case _ => x == v
  }

  /** Row `r` passes every recognised entry of a Category filter. */
  predicate CategoryFilterHolds(f: Filter, r: Row) {
    forall i :: 0 <= i < |f| && f[i].0 in CategoryColumns ==>
      ValueMatches(Field(r, Column(CategoryTable, f[i].0)), f[i].1)
  }

  /** Row `r` equals every recognised entry of an Item filter. */
  predicate ItemFilterHolds(f: Filter, r: Row) {
    forall i :: 0 <= i < |f| && f[i].0 in ItemColumns ==> Field(r, Column(ItemTable, f[i].0)) == f[i].1
  }

  /** A recognised Category key whose value is a list neither all strings nor all ints. */
  predicate Incompatible(key: string, value: Value) {
    key in CategoryColumns && value.List? && !AllStr(value.elems) && !AllInt(value.elems)
  }

  /** The entries of `f` whose key is in `cols`, in order. */
  function KnownEntries(f: Filter, cols: set<string>): (g: Filter)
    ensures forall e :: e in g <==> e in f && e.0 in cols
  {
    if f == [] then []
    else
      var init := KnownEntries(f[..|f| - 1], cols);
      assert f == f[..|f| - 1] + [f[|f| - 1]];
      if f[|f| - 1].0 in cols then init + [f[|f| - 1]] else init
  }

  /** Filtering a concatenation filters each part: the kept entries stay in their order. */
  lemma {:induction false} KnownEntriesAppend(f: Filter, g: Filter, cols: set<string>)
    ensures KnownEntries(f + g, cols) == KnownEntries(f, cols) + KnownEntries(g, cols)
    decreases |g|
  {
    if g == [] {
      assert f + g == f;
    } else {
      var init, last := g[..|g| - 1], g[|g| - 1];
      KnownEntriesAppend(f, init, cols);
      var fg := f + g;
      assert fg[..|fg| - 1] == f + init && fg[|fg| - 1] == last;
    }
  }

  lemma HoldsAllAppend(ps: seq<Pred>, p: Pred, r: Row)
    ensures HoldsAll(ps + [p], r) <==> HoldsAll(ps, r) && Holds(p, r)
  {
    if HoldsAll(ps, r) && Holds(p, r) {
      forall i | 0 <= i < |ps| + 1 ensures Holds((ps + [p])[i], r) {
        if i < |ps| { assert (ps + [p])[i] == ps[i]; }
      }
    }
    if HoldsAll(ps + [p], r) {
      forall i | 0 <= i < |ps| ensures Holds(ps[i], r) {
        assert (ps + [p])[i] == ps[i];
      }
      assert (ps + [p])[|ps|] == p;
    }
  }

  /** AND semantics across keys: the translated Category filter accepts exactly the rows
      that match every recognised entry; unrecognised keys constrain nothing. */
  lemma {:induction false} CategoryFilterMeaning(f: Filter, r: Row)
    requires Translate(f, CategoryEntry).Ok?
    ensures HoldsAll(Translate(f, CategoryEntry).value, r) <==> CategoryFilterHolds(f, r)
  {
    if f != [] {
      var init, last := f[..|f| - 1], f[|f| - 1];
      CategoryFilterMeaning(init, r);
      var ps := Translate(init, CategoryEntry).value;
      assert forall i :: 0 <= i < |init| ==> init[i] == f[i];
      match CategoryEntry(last.0, last.1)
      case Ok(None) =>
        assert CategoryFilterHolds(f, r) <==> CategoryFilterHolds(init, r);
      case Ok(Some(p)) =>
        HoldsAllAppend(ps, p, r);
        assert Holds(p, r) <==> ValueMatches(Field(r, Column(CategoryTable, last.0)), last.1);
        if CategoryFilterHolds(init, r) && Holds(p, r) {
          forall i | 0 <= i < |f| && f[i].0 in CategoryColumns
            ensures ValueMatches(Field(r, Column(CategoryTable, f[i].0)), f[i].1)
          {
            if i < |init| { assert f[i] == init[i]; }
          }
        }
    }
  }

  /** The translated Item filter accepts exactly the rows equal to every recognised entry,
      whatever the entry's value; translation never fails. */
  lemma {:induction false} ItemFilterMeaning(f: Filter, r: Row)
    ensures Translate(f, ItemEntry).Ok?
    ensures HoldsAll(Translate(f, ItemEntry).value, r) <==> ItemFilterHolds(f, r)
  {
    if f != [] {
      var init, last := f[..|f| - 1], f[|f| - 1];
      ItemFilterMeaning(init, r);
      var ps := Translate(init, ItemEntry).value;
      assert forall i :: 0 <= i < |init| ==> init[i] == f[i];
      if last.0 in ItemColumns {
        var p := Eq(Column(ItemTable, last.0), last.1);
        HoldsAllAppend(ps, p, r);
        if ItemFilterHolds(init, r) && Holds(p, r) {
          forall i | 0 <= i < |f| && f[i].0 in ItemColumns
            ensures Field(r, Column(ItemTable, f[i].0)) == f[i].1
          {
            if i < |init| { assert f[i] == init[i]; }
          }
        }
      } else {
        assert ItemFilterHolds(f, r) <==> ItemFilterHolds(init, r);
      }
    }
  }

  /** A Category filter fails exactly when some recognised entry holds a mixed list,
      and the error names the first such entry. */
  lemma {:induction false} CategoryFilterError(f: Filter)
    ensures Translate(f, CategoryEntry).Err? <==> exists i :: 0 <= i < |f| && Incompatible(f[i].0, f[i].1)
    ensures Translate(f, CategoryEntry).Err? ==>
      exists i :: 0 <= i < |f| && Incompatible(f[i].0, f[i].1)
        && Translate(f, CategoryEntry).error == IncompatibleListType(f[i].0)
        && forall j :: 0 <= j < i ==> !Incompatible(f[j].0, f[j].1)
  {
    if f != [] {
      var init, last := f[..|f| - 1], f[|f| - 1];
      CategoryFilterError(init);
      assert forall i :: 0 <= i < |init| ==> init[i] == f[i];
      assert CategoryEntry(last.0, last.1).Err? <==> Incompatible(last.0, last.1);
      if Translate(init, CategoryEntry).Ok? && !Incompatible(last.0, last.1) {
        forall i | 0 <= i < |f| ensures !Incompatible(f[i].0, f[i].1) {
          if i < |init| { assert f[i] == init[i]; }
        }
      }
      if Translate(init, CategoryEntry).Ok? && Incompatible(last.0, last.1) {
        assert f[|f| - 1] == last;
        assert Translate(f, CategoryEntry).error == IncompatibleListType(last.0);
        assert forall j :: 0 <= j < |init| ==> !Incompatible(f[j].0, f[j].1);
      }
    }
  }

  /** Keys that are not columns of the target table may be dropped from a filter
      without changing what is built. */
  lemma {:induction false} UnknownKeysIgnored(f: Filter, cols: set<string>, entry: (string, Value) -> EntryResult)
    requires forall k, v :: k !in cols ==> entry(k, v) == Ok(None)
    ensures Translate(f, entry) == Translate(KnownEntries(f, cols), entry)
  {
    if f != [] {
      var init, last := f[..|f| - 1], f[|f| - 1];
      UnknownKeysIgnored(init, cols, entry);
      var g := KnownEntries(init, cols);
      if last.0 in cols {
        var g' := g + [last];
        assert g'[..|g'| - 1] == g && g'[|g'| - 1] == last;
      }
    }
  }

  lemma CategoryUnknownKeysIgnored(f: Filter)
    ensures Translate(f, CategoryEntry) == Translate(KnownEntries(f, CategoryColumns), CategoryEntry)
    ensures Translate(f, CountCategoryEntry) == Translate(KnownEntries(f, CategoryColumns), CountCategoryEntry)
  {
    UnknownKeysIgnored(f, CategoryColumns, CategoryEntry);
    UnknownKeysIgnored(f, CategoryColumns, CountCategoryEntry);
  }

  lemma ItemUnknownKeysIgnored(f: Filter)
    ensures Translate(f, ItemEntry) == Translate(KnownEntries(f, ItemColumns), ItemEntry)
  {
    UnknownKeysIgnored(f, ItemColumns, ItemEntry);
  }

  /** `count_categories` builds the same WHERE clause, and fails on the same entry,
      as `categories`. */
  lemma {:induction false} CountCategoriesSameDispatch(f: Filter)
    ensures Translate(f, CountCategoryEntry) == Translate(f, CategoryEntry)
  {
    if f != [] {
      CountCategoriesSameDispatch(f[..|f| - 1]);
      var last := f[|f| - 1];
      assert CountCategoryEntry(last.0, last.1) == CategoryEntry(last.0, last.1);
    }
  }

  /** Python's `isinstance(True, int)`: a list of booleans passes the "all ints" test
      and becomes set membership, while a string mixed with a number is rejected. */
  lemma BoolListIsIntList()
    ensures CategoryEntry("id", List([Bool(true), Int(2)])) == Ok(Some(Member(Column(CategoryTable, "id"), [Bool(true), Int(2)])))
    ensures CategoryEntry("id", List([Int(1), Str("a")])) == Err(IncompatibleListType("id"))
    ensures CategoryEntry("id", List([])) == Ok(Some(Member(Column(CategoryTable, "id"), [])))
  {
    assert !AllStr([Int(1), Str("a")]) by { assert !IsPyStr([Int(1), Str("a")][0]); }
    assert !AllInt([Int(1), Str("a")]) by { assert !IsPyInt([Int(1), Str("a")][1]); }
    assert !AllStr([Bool(true), Int(2)]) by { assert !IsPyStr([Bool(true), Int(2)][0]); }
  }

  /** Once an entry has failed, the rest of the filter is never looked at. */
  lemma {:induction false} TranslateStopsAtError(f: Filter, i: nat, entry: (string, Value) -> EntryResult)
    requires i <= |f| && Translate(f[..i], entry).Err?
    ensures Translate(f, entry) == Translate(f[..i], entry)
    decreases |f|
  {
    if i < |f| {
      var init := f[..|f| - 1];
      assert init[..i] == f[..i];
      TranslateStopsAtError(init, i, entry);
    } else {
      assert f[..i] == f;
    }
  }
}
