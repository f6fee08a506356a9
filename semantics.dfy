/**
  A reference semantics for the query descriptions over an in-memory
  sequence of rows: keep the rows every predicate accepts, sort them
  (stably) when an ORDER BY is present, then take OFFSET/LIMIT.
 */
module Semantics {
  import opened Wrappers
  import opened Json
  import opened Text
  import opened Like
  import opened Query

  /** A result row, keyed by the columns it carries. */
  type Row = map<Column, Value>

  /** A column the row lacks reads as SQL NULL. */
  function Field(r: Row, c: Column): Value {
    if c in r then r[c] else Null
  }

  /** `col IN (...)`, `col ILIKE '%s%'` and `col = v` (SQLAlchemy turns `col == None` into `IS NULL`). */
  predicate Holds(p: Pred, r: Row) {
    match p
    case Member(c, vs) => Field(r, c) in vs
    case Substr(c, s) => Field(r, c).Str? && ILike(Field(r, c).s, SubstringPattern(s))
    case Eq(c, v) => Field(r, c) == v
  }

  /** Successive `.where(...)` calls are joined with AND. */
  predicate HoldsAll(ps: seq<Pred>, r: Row) {
    forall i :: 0 <= i < |ps| ==> Holds(ps[i], r)
  }

  /** The rows a WHERE clause keeps, in their original order. */
  function Select(ps: seq<Pred>, rows: seq<Row>): (out: seq<Row>)
    ensures multiset(out) <= multiset(rows)
    ensures forall i :: 0 <= i < |out| ==> HoldsAll(ps, out[i])
    ensures forall r :: r in rows && HoldsAll(ps, r) ==> r in out
  {
    if rows == [] then []
    else
      var rest := Select(ps, rows[1..]);
      assert rows == [rows[0]] + rows[1..];
      if HoldsAll(ps, rows[0]) then [rows[0]] + rest else rest
  }

  /** `SELECT count(*)` under the predicates. */
  function Count(ps: seq<Pred>, rows: seq<Row>): nat {
    |Select(ps, rows)|
  }

  // Ordering of values: within one kind the natural order; NULL sorts last in
  // ascending order and first in descending order, as in PostgreSQL.

  function Rank(v: Value): nat {
    match v
    case Bool(_) => 0
    case Int(_) => 1
    case Str(_) => 2
    case List(_) => 3
    case Obj(_) => 4
    case Null => 5
  }

  predicate ValueLe(a: Value, b: Value) {
    if Rank(a) != Rank(b) then Rank(a) < Rank(b)
    else match a
      case Bool(x) => b.Bool? && (!x || b.b)
      case Int(x) => b.Int? && x <= b.i
      case Str(x) => b.Str? && StrLe(x, b.s)
      case _ => true
  }

  lemma ValueLeTotal(a: Value, b: Value)
    ensures ValueLe(a, b) || ValueLe(b, a)
  {
    if a.Str? && b.Str? {
      StrLeTotal(a.s, b.s);
    }
  }

  lemma ValueLeTrans(a: Value, b: Value, c: Value)
    requires ValueLe(a, b) && ValueLe(b, c)
    ensures ValueLe(a, c)
  {
    if a.Str? && b.Str? && c.Str? {
      StrLeTrans(a.s, b.s, c.s);
    }
  }

  /** `a` may come before `b` under `ORDER BY o.col ASC|DESC`. */
  predicate RowLe(a: Row, b: Row, o: Order) {
    match o.dir
    case Asc => ValueLe(Field(a, o.col), Field(b, o.col))
    case Desc => ValueLe(Field(b, o.col), Field(a, o.col))
  }

  lemma RowLeTotal(a: Row, b: Row, o: Order)
    ensures RowLe(a, b, o) || RowLe(b, a, o)
  {
    ValueLeTotal(Field(a, o.col), Field(b, o.col));
  }

  lemma RowLeTrans(a: Row, b: Row, c: Row, o: Order)
    requires RowLe(a, b, o) && RowLe(b, c, o)
    ensures RowLe(a, c, o)
  {
    match o.dir
    case Asc => ValueLeTrans(Field(a, o.col), Field(b, o.col), Field(c, o.col));
    case Desc => ValueLeTrans(Field(c, o.col), Field(b, o.col), Field(a, o.col));
  }

  predicate SortedBy(s: seq<Row>, o: Order) {
    forall i, j :: 0 <= i < j < |s| ==> RowLe(s[i], s[j], o)
  }

  /** Inserts `r` after every row that may precede it (so equal keys keep their order). */
  function InsertRow(s: seq<Row>, r: Row, o: Order): (out: seq<Row>)
    ensures multiset(out) == multiset(s) + multiset{r}
    decreases |s|
  {
    if s == [] then [r]
    else if RowLe(s[|s| - 1], r, o) then s + [r]
    else
      assert s == s[..|s| - 1] + [s[|s| - 1]];
      InsertRow(s[..|s| - 1], r, o) + [s[|s| - 1]]
  }

  lemma {:induction false} InsertRowSorted(s: seq<Row>, r: Row, o: Order)
    requires SortedBy(s, o)
    ensures SortedBy(InsertRow(s, r, o), o)
    decreases |s|
  {
    if s != [] {
      var last := s[|s| - 1];
      if RowLe(last, r, o) {
        forall i | 0 <= i < |s| ensures RowLe(s[i], r, o) {
          if i < |s| - 1 {
            RowLeTrans(s[i], last, r, o);
          }
        }
      } else {
        var init := s[..|s| - 1];
        InsertRowSorted(init, r, o);
        var ins := InsertRow(init, r, o);
        RowLeTotal(last, r, o);
        forall x | x in ins ensures RowLe(x, last, o) {
          assert x in multiset(ins);
          if x != r {
            assert x in init;
            var k :| 0 <= k < |init| && init[k] == x;
          }
        }
        var out := ins + [last];
        forall i, j | 0 <= i < j < |out| ensures RowLe(out[i], out[j], o) {
          if j == |out| - 1 {
            assert out[i] in ins;
          }
        }
      }
    }
  }

  /** Stable insertion sort: `ORDER BY o` over a finished selection. */
  function SortBy(s: seq<Row>, o: Order): (out: seq<Row>)
    ensures multiset(out) == multiset(s)
    ensures SortedBy(out, o)
  {
    if s == [] then []
    else
      var sorted := SortBy(s[..|s| - 1], o);
      InsertRowSorted(sorted, s[|s| - 1], o);
      assert s == s[..|s| - 1] + [s[|s| - 1]];
      InsertRow(sorted, s[|s| - 1], o)
  }

  /** No ORDER BY keeps the selection's order. */
  function Arrange(s: seq<Row>, order: Option<Order>): seq<Row> {
    match order
    case None => s
    case Some(o) => SortBy(s, o)
  }

  /** `OFFSET offset LIMIT limit`: a contiguous run starting at `offset`, at most `limit` long,
      shorter only when the rows run out. */
  function Page(s: seq<Row>, offset: nat, limit: nat): (p: seq<Row>)
    ensures |p| <= limit
    ensures |p| == limit || offset + |p| >= |s|
    ensures forall i :: 0 <= i < |p| ==> offset + i < |s| && p[i] == s[offset + i]
  {
    var lo := if offset <= |s| then offset else |s|;
    var hi := if offset + limit <= |s| then offset + limit else |s|;
    s[lo..hi]
  }

  /** Executing a query against a table's rows. PostgreSQL rejects a negative
      OFFSET or LIMIT, which is the `None` result. */
  function Run(q: Query, rows: seq<Row>): Option<seq<Row>> {
    if q.offset < 0 || q.limit < 0 then None
    else Some(Page(Arrange(Select(q.preds, rows), q.order), q.offset, q.limit))
  }
}
