/** What the database makes of a WHERE clause that `Query.where` built from
    keyword arguments: each `where`/`or_` call is one group, a row is selected
    when some group holds, and a group holds when each of its keyword arguments
    does. A keyword argument means what its rendered term means in SQL; a
    comparison with NULL is never true.
 */
module RowFilter {

  import opened Results
  import opened Datum
  import opened QueryBuilder
  import Ordering
  import QueryProperties

  /** A stored row, by column name. */
  type Row = map<string, Value>

  /** Only values of one kind compare; NULL compares with nothing. */
  predicate Comparable(x: Value, v: Value) {
    !x.Null? && !v.Null? && Ordering.KindRank(x) == Ordering.KindRank(v)
  }

  predicate Orderable(x: Value) {
    x.Bool? || x.Int? || x.Str? || x.Stamp?
  }

  /** `x <symbol> v` for the symbols of the operator table. */
  predicate Satisfies(x: Value, symbol: string, v: Value) {
    Comparable(x, v) &&
    if symbol == "=" then x == v
    else if symbol == "!=" then x != v
    else if !Orderable(x) then false
    else if symbol == "<" then Ordering.ValueLeq(x, v) && !Ordering.ValueLeq(v, x)
    else if symbol == "<=" then Ordering.ValueLeq(x, v)
    else if symbol == ">=" then Ordering.ValueLeq(v, x)
    else if symbol == ">" then Ordering.ValueLeq(v, x) && !Ordering.ValueLeq(x, v)
    else false
  }

  /** The condition one keyword argument puts on a row. An unknown operator
      suffix emits no term and therefore constrains nothing. */
  predicate ArgHolds(row: Row, k: string, v: Value) {
    var (name, op) := SplitKey(k);
    match op
    case Ignored => true
    case Eq => name in row && (if v.Null? then row[name].Null? else Satisfies(row[name], "=", v))
    case Compare(symbol) => name in row && Satisfies(row[name], symbol, v)
    case IsNull => name in row && (if Truthy(v) then row[name].Null? else !row[name].Null?)
    case In => name in row && ListOf(v).Ok? && !row[name].Null? && row[name] in ListOf(v).value
  }

  /** One `where` call: the AND of its terms. */
  predicate GroupHolds(row: Row, kw: Kwargs) {
    forall i | 0 <= i < |kw| :: ArgHolds(row, kw[i].0, kw[i].1)
  }

  /** All `where`/`or_` calls: the OR of the groups. */
  predicate Matches(row: Row, groups: seq<Kwargs>) {
    exists g | 0 <= g < |groups| :: GroupHolds(row, groups[g])
  }

  /** The columns a group's terms name (arguments with an unknown suffix name none). */
  function Referenced(kw: Kwargs): (r: set<string>)
    ensures forall c :: c in r <==> exists i | 0 <= i < |kw| :: SplitKey(kw[i].0).0 == c && !SplitKey(kw[i].0).1.Ignored?
  {
    set i | 0 <= i < |kw| && !SplitKey(kw[i].0).1.Ignored? :: SplitKey(kw[i].0).0
  }

  /** Every column a clause names exists; otherwise the statement fails in the database. */
  predicate KnownColumns(columns: set<string>, groups: seq<Kwargs>) {
    forall g | 0 <= g < |groups| :: Referenced(groups[g]) <= columns
  }

  /** The rows of `rows` that satisfy `p`, in stored order. */
  function Keep<T(!new)>(rows: seq<T>, p: T -> bool): (r: seq<T>)
    ensures |r| <= |rows|
    ensures forall x :: x in r <==> x in rows && p(x)
  {
    if |rows| == 0 then []
    else if p(rows[0]) then [rows[0]] + Keep(rows[1..], p)
    else Keep(rows[1..], p)
  }

  /** Filtering distributes over concatenation, so the order of the rows is kept. */
  lemma {:induction false} KeepAppend<T(!new)>(a: seq<T>, b: seq<T>, p: T -> bool)
    ensures Keep(a + b, p) == Keep(a, p) + Keep(b, p)
    decreases |a|
  {
    if |a| > 0 {
      assert (a + b)[0] == a[0];
      assert (a + b)[1..] == a[1..] + b;
      KeepAppend(a[1..], b, p);
      if p(a[0]) {
        assert [a[0]] + (Keep(a[1..], p) + Keep(b, p)) == ([a[0]] + Keep(a[1..], p)) + Keep(b, p);
      }
    } else {
      assert a + b == b;
    }
  }

  /** Filtering by a condition every row meets returns the rows unchanged. */
  lemma {:induction false} KeepAll<T(!new)>(rows: seq<T>, p: T -> bool)
    requires forall i | 0 <= i < |rows| :: p(rows[i])
    ensures Keep(rows, p) == rows
    decreases |rows|
  {
    if |rows| > 0 {
      KeepAll(rows[1..], p);
    }
  }

  /** Filtering only depends on the verdict for the rows at hand. */
  lemma {:induction false} KeepSame<T(!new)>(rows: seq<T>, p: T -> bool, q: T -> bool)
    requires forall i | 0 <= i < |rows| :: p(rows[i]) == q(rows[i])
    ensures Keep(rows, p) == Keep(rows, q)
    decreases |rows|
  {
    if |rows| > 0 {
      KeepSame(rows[1..], p, q);
    }
  }

  /** A single `where` call selects the rows its group holds on. */
  lemma SingleGroup(kw: Kwargs)
    ensures forall row: Row :: Matches(row, [kw]) <==> GroupHolds(row, kw)
  {
    assert [kw][0] == kw;
  }

  // ---------------------------------------------------------------------------
  // The operator table, read as conditions
  // ---------------------------------------------------------------------------

  /** `_deleted=None` selects exactly the rows whose `_deleted` is NULL. */
  lemma ActiveCondition(row: Row)
    requires "_deleted" in row
    ensures GroupHolds(row, [("_deleted", Null)]) <==> row["_deleted"].Null?
  {
    Text.RSplitOfPlain("_deleted");
    assert SplitKey("_deleted") == ("_deleted", Eq);
    assert ArgHolds(row, "_deleted", Null) <==> row["_deleted"].Null?;
    assert [("_deleted", Null)][0] == ("_deleted", Null);
  }

  /** A NULL argument makes every comparison false: `x < NULL` is unknown, not true. */
  lemma NullNeverCompares(row: Row, name: string, op: string)
    requires op in {"lt", "lte", "le", "ne", "ge", "gte", "gt"}
    ensures !ArgHolds(row, name + "__" + op, Null)
  {
    Text.RSplitOfSuffixed(name, op);
    assert SplitKey(name + "__" + op).1.Compare?;
  }

  /** `isnull=True` selects NULL cells and `isnull=False` the others. */
  lemma IsNullCondition(row: Row, name: string, v: Value)
    requires name in row
    ensures ArgHolds(row, name + "__isnull", v) <==> (row[name].Null? <==> Truthy(v))
  {
    QueryProperties.SuffixedKey(name, "isnull", name + "__isnull");
  }

  /** `in` is membership of a non-NULL cell in `list(v)`. */
  lemma InCondition(row: Row, name: string, items: seq<Value>)
    requires name in row
    ensures ArgHolds(row, name + "__in", Array(items)) <==> !row[name].Null? && row[name] in items
  {
    QueryProperties.SuffixedKey(name, "in", name + "__in");
  }

  /** A keyword argument with an unknown suffix holds on every row. */
  lemma UnknownSuffixHolds(row: Row, name: string, op: string, v: Value)
    requires '_' !in op && DecodeOp(op).Ignored?
    ensures ArgHolds(row, name + "__" + op, v)
  {
    Text.RSplitOfSuffixed(name, op);
  }

  /** Each `or_` call widens the selection by its own group. */
  lemma OrWidens(row: Row, groups: seq<Kwargs>, kw: Kwargs)
    ensures Matches(row, groups + [kw]) <==> Matches(row, groups) || GroupHolds(row, kw)
  {
    if Matches(row, groups) {
      var g :| 0 <= g < |groups| && GroupHolds(row, groups[g]);
      assert (groups + [kw])[g] == groups[g];
    }
    if GroupHolds(row, kw) {
      assert (groups + [kw])[|groups|] == kw;
    }
    if Matches(row, groups + [kw]) {
      var g :| 0 <= g < |groups| + 1 && GroupHolds(row, (groups + [kw])[g]);
      if g < |groups| {
        assert (groups + [kw])[g] == groups[g];
      }
    }
  }

  /** The keyword arguments of one call are AND-ed: splitting them over the call changes nothing. */
  lemma GroupConjunction(row: Row, a: Kwargs, b: Kwargs)
    ensures GroupHolds(row, a + b) <==> GroupHolds(row, a) && GroupHolds(row, b)
  {
    if GroupHolds(row, a) && GroupHolds(row, b) {
      forall i | 0 <= i < |a + b|
        ensures ArgHolds(row, (a + b)[i].0, (a + b)[i].1)
      {
        if i >= |a| {
          assert (a + b)[i] == b[i - |a|];
        }
      }
    }
    if GroupHolds(row, a + b) {
      forall i | 0 <= i < |b|
        ensures ArgHolds(row, b[i].0, b[i].1)
      {
        assert (a + b)[|a| + i] == b[i];
      }
      forall i | 0 <= i < |a|
        ensures ArgHolds(row, a[i].0, a[i].1)
      {
        assert (a + b)[i] == a[i];
      }
    }
  }
}
