/** Properties of the SQL builder: the operator table of `parse_qargs` and
    the renderings the callers rely on.
 */
module QueryProperties {

  import opened Results
  import opened Datum
  import opened Text
  import opened QueryBuilder
  import opened QueryBalance

  // ---------------------------------------------------------------------------
  // The operator table
  // ---------------------------------------------------------------------------

  lemma SuffixedKey(name: string, op: string, key: string)
    requires '_' !in op && key == name + "__" + op
    ensures SplitKey(key) == (name, DecodeOp(op))
  {
    RSplitOfSuffixed(name, op);
  }

  /** A key without `__` is an equality test; `None` becomes `IS NULL` and binds nothing. */
  lemma PlainKeyIsEquality(name: string, v: Value)
    requires forall m | 0 <= m < |name| :: !SeparatorAt(name, m)
    ensures v.Null? ==> ParseArg(name, v) == Ok(Parsed([Quote(name) + " IS NULL"], []))
    ensures !v.Null? ==> ParseArg(name, v) == Ok(Parsed([Quote(name) + " = %s"], [v]))
  {
  }

  /** `__eq` is the same as no suffix. */
  lemma EqSuffix(name: string, v: Value)
    ensures v.Null? ==> ParseArg(name + "__eq", v) == Ok(Parsed([Quote(name) + " IS NULL"], []))
    ensures !v.Null? ==> ParseArg(name + "__eq", v) == Ok(Parsed([Quote(name) + " = %s"], [v]))
  {
    SuffixedKey(name, "eq", name + "__eq");
  }

  lemma ComparisonTerm(name: string, op: string, symbol: string, v: Value, key: string, term: string)
    requires '_' !in op && DecodeOp(op) == Compare(symbol)
    requires key == name + "__" + op && term == " " + symbol + " %s"
    ensures ParseArg(key, v) == Ok(Parsed([Quote(name) + term], [v]))
  {
    SuffixedKey(name, op, key);
    assert Quote(name) + " " + symbol + " %s" == Quote(name) + (" " + symbol + " %s");
  }

  /** The comparison part of `op_map`. */
  const ComparisonOps: map<string, string> :=
    map["lt" := "<", "lte" := "<=", "le" := "<=", "ne" := "!=", "ge" := ">=", "gte" := ">=", "gt" := ">"]

  /** Step fact: each comparison suffix decodes to its symbol. */
  lemma ComparisonOpsDecode()
    ensures forall op | op in ComparisonOps :: '_' !in op && DecodeOp(op) == Compare(ComparisonOps[op])
  {
  }

  /** The comparison suffixes bind their value, even `None`. */
  lemma ComparisonSuffixes(name: string, v: Value)
    ensures forall op | op in ComparisonOps ::
      ParseArg(name + "__" + op, v) == Ok(Parsed([Quote(name) + " " + ComparisonOps[op] + " %s"], [v]))
  {
    ComparisonOpsDecode();
    forall op | op in ComparisonOps
      ensures ParseArg(name + "__" + op, v) == Ok(Parsed([Quote(name) + " " + ComparisonOps[op] + " %s"], [v]))
    {
      var symbol := ComparisonOps[op];
      ComparisonTerm(name, op, symbol, v, name + "__" + op, " " + symbol + " %s");
      assert Quote(name) + " " + symbol + " %s" == Quote(name) + (" " + symbol + " %s");
    }
  }

  /** `__isnull` tests the truth of its value and binds nothing; a true value gives `IS  NULL` with two spaces. */
  lemma IsNullSuffix(name: string, v: Value)
    ensures Truthy(v) ==> ParseArg(name + "__isnull", v) == Ok(Parsed([Quote(name) + " IS  NULL"], []))
    ensures !Truthy(v) ==> ParseArg(name + "__isnull", v) == Ok(Parsed([Quote(name) + " IS NOT NULL"], []))
  {
    IsNullKey(name);
    assert Quote(name) + " IS " + "" + " NULL" == Quote(name) + " IS  NULL";
    assert Quote(name) + " IS " + "NOT" + " NULL" == Quote(name) + " IS NOT NULL";
  }

  lemma IsNullKey(name: string)
    ensures SplitKey(name + "__isnull") == (name, IsNull)
  {
    assert '_' !in "isnull" by {
      assert forall j | 0 <= j < |"isnull"| :: "isnull"[j] != '_';
    }
    assert name + "__isnull" == name + "__" + "isnull" by {
      assert "__" + "isnull" == "__isnull";
    }
    SuffixedKey(name, "isnull", name + "__isnull");
  }

  /** `__in` binds `list(v)` to `= ANY(%s)`; a value that is not iterable raises. */
  lemma InSuffix(name: string, v: Value)
    ensures v.Array? ==> ParseArg(name + "__in", v) == Ok(Parsed([Quote(name) + " = ANY(%s)"], [v]))
    ensures v.Str? ==> ParseArg(name + "__in", v) == Ok(Parsed([Quote(name) + " = ANY(%s)"], [Array(Chars(v.s))]))
    ensures !(v.Array? || v.Str?) ==> ParseArg(name + "__in", v) == Err(TypeError("'" + TypeName(v) + "' object is not iterable"))
  {
    InKey(name);
  }

  lemma InKey(name: string)
    ensures SplitKey(name + "__in") == (name, In)
  {
    assert '_' !in "in" by {
      assert "in"[0] != '_' && "in"[1] != '_';
    }
    assert name + "__in" == name + "__" + "in" by {
      assert "__" + "in" == "__in";
    }
    RSplitOfSuffixed(name, "in");
    assert DecodeOp("in") == In;
  }

  /** A suffix outside the table yields no term and no parameter. */
  lemma UnknownSuffixDropped(name: string, op: string, v: Value)
    requires '_' !in op
    requires op !in {"eq", "lt", "lte", "le", "ne", "ge", "gte", "gt", "isnull", "in"}
    ensures ParseArg(name + "__" + op, v) == Ok(Parsed([], []))
  {
    SuffixedKey(name, op, name + "__" + op);
  }

  /** `parse_qargs` of one keyword is the term of that keyword. */
  lemma ParseQargsSingle(k: string, v: Value)
    ensures ParseQargs([(k, v)]) == ParseArg(k, v)
  {
    assert [(k, v)][1..] == [];
    if ParseArg(k, v).Ok? {
      var p := ParseArg(k, v).value;
      assert p.terms + [] == p.terms && p.values + [] == p.values;
    }
  }

  // ---------------------------------------------------------------------------
  // Renderings
  // ---------------------------------------------------------------------------

  /** `order_by` items: one word gives `"name" ` with a trailing space, two words
      `"name" modifier`, three or more words keep only the name, and a blank item
      raises the `IndexError` of `field[0]`. */
  lemma OrderItemForms(name: string, modifier: string, extra: string)
    requires |name| > 0 && NoSpace(name) && |modifier| > 0 && NoSpace(modifier)
    requires |extra| > 0 && NoSpace(extra)
    ensures OrderItem(name) == Ok(Quote(name) + " ")
    ensures OrderItem(name + " " + modifier) == Ok(Quote(name) + " " + modifier)
    ensures OrderItem(name + " " + modifier + " " + extra) == Ok(Quote(name) + " ")
    ensures OrderItem(" ") == Err(IndexError("list index out of range"))
  {
    WordsOfWord(name);
    assert Quote(name) + " " + "" == Quote(name) + " ";
    WordsOfPair(name, modifier);
    var tail := modifier + " " + extra;
    assert name + " " + modifier + " " + extra == name + " " + tail;
    WordsCons(name, tail);
    WordsOfPair(modifier, extra);
    assert Words(" ") == Words("");
  }

  /** `limit(n)` is written as a decimal literal that reads back as `n`. */
  lemma LimitLiteral(q: Query, n: int)
    requires LIMIT in q.declared
    ensures Render(Limit(q, n).value) == Render(q.(limit := Some(n)))
    ensures LimitText(Limit(q, n).value.limit) == " LIMIT " + IntToString(n)
    ensures ParseInt(IntToString(n)) == n
  {
    IntToStringRoundTrip(n);
  }

  lemma JoinTwo(sep: string, a: string, b: string)
    ensures Join(sep, [a, b]) == a + sep + b
  {
    assert [a, b][1..] == [b];
  }

  /** `parse_qargs` of one keyword is the term of that keyword. */
  lemma ParseQargsCons(k: string, v: Value, rest: Kwargs)
    requires ParseArg(k, v).Ok? && ParseQargs(rest).Ok?
    ensures ParseQargs([(k, v)] + rest)
         == Ok(Parsed(ParseArg(k, v).value.terms + ParseQargs(rest).value.terms,
                      ParseArg(k, v).value.values + ParseQargs(rest).value.values))
  {
    assert ([(k, v)] + rest)[1..] == rest;
  }

  /** A field name usable as a plain keyword: no `__` inside. */
  predicate PlainName(name: string) {
    forall m | 0 <= m < |name| :: !SeparatorAt(name, m)
  }

  /** `where(name=v)` for a value other than `None` adds the group `"name" = %s` and binds `v`. */
  lemma WhereEquality(q: Query, name: string, v: Value)
    requires WHERE in q.declared && PlainName(name) && !v.Null?
    ensures Where(q, [(name, v)]) == Ok(q.(params := q.params + [v], groups := q.groups + [[Quote(name) + " = %s"]]))
  {
    PlainKeyIsEquality(name, v);
    ParseQargsSingle(name, v);
    var r := Where(q, [(name, v)]);
    assert r.value.params == q.params + [v];
    assert r.value.groups == q.groups + [[Quote(name) + " = %s"]];
  }

  /** `or_(name__lte=hi, name__gte=lo)` adds one group of two comparisons, binding `hi` then `lo`. */
  lemma OrRange(q: Query, name: string, hi: Value, lo: Value)
    requires WHERE in q.declared
    ensures Or(q, [(name + "__lte", hi), (name + "__gte", lo)])
         == Ok(q.(params := q.params + [hi, lo], groups := q.groups + [[Quote(name) + " <= %s", Quote(name) + " >= %s"]]))
  {
    var kw := [(name + "__lte", hi), (name + "__gte", lo)];
    RangeParsed(name, hi, lo);
    var r := Or(q, kw);
    assert r.value == q.(params := r.value.params, groups := r.value.groups);
  }

  /** The two keywords of `OrRange` parse to its two comparisons, in call order. */
  lemma RangeParsed(name: string, hi: Value, lo: Value)
    ensures ParseQargs([(name + "__lte", hi), (name + "__gte", lo)])
         == Ok(Parsed([Quote(name) + " <= %s", Quote(name) + " >= %s"], [hi, lo]))
  {
    RangeOps();
    ComparisonTerm(name, "lte", "<=", hi, name + "__lte", " <= %s");
    ComparisonTerm(name, "gte", ">=", lo, name + "__gte", " >= %s");
    ParseQargsPair(name + "__lte", hi, name + "__gte", lo);
    assert [Quote(name) + " <= %s"] + [Quote(name) + " >= %s"] == [Quote(name) + " <= %s", Quote(name) + " >= %s"];
    assert [hi] + [lo] == [hi, lo];
  }

  /** Step fact: the operators of `OrRange`, decoded. */
  lemma RangeOps()
    ensures '_' !in "lte" && DecodeOp("lte") == Compare("<=")
    ensures '_' !in "gte" && DecodeOp("gte") == Compare(">=")
  {
  }

  /** Two keywords parse to the terms and values of the first, then of the second. */
  lemma ParseQargsPair(k1: string, v1: Value, k2: string, v2: Value)
    requires ParseArg(k1, v1).Ok? && ParseArg(k2, v2).Ok?
    ensures ParseQargs([(k1, v1), (k2, v2)])
         == Ok(Parsed(ParseArg(k1, v1).value.terms + ParseArg(k2, v2).value.terms,
                      ParseArg(k1, v1).value.values + ParseArg(k2, v2).value.values))
  {
    ParseQargsSingle(k2, v2);
    ParseQargsCons(k1, v1, [(k2, v2)]);
    assert [(k1, v1)] + [(k2, v2)] == [(k1, v1), (k2, v2)];
  }

  lemma OrderItemsPair(a: string, b: string, x: string, y: string)
    requires OrderItem(a) == Ok(x) && OrderItem(b) == Ok(y)
    ensures OrderItems([a, b]) == Ok([x, y])
  {
    var r := OrderItems([a, b]);
    assert r.Ok?;
    assert r.value == [x, y];
  }

  /** `order_by(a, 'b m')` orders by `"a" ` and then `"b" m`. */
  lemma OrderByPair(q: Query, a: string, b: string, m: string)
    requires ORDER_BY in q.declared
    requires |a| > 0 && NoSpace(a) && |b| > 0 && NoSpace(b) && |m| > 0 && NoSpace(m)
    ensures OrderBy(q, [a, b + " " + m]) == Ok(q.(orderBy := [Quote(a) + " ", Quote(b) + " " + m]))
  {
    OrderItemForms(a, m, m);
    OrderItemForms(b, m, m);
    OrderItemsPair(a, b + " " + m, Quote(a) + " ", Quote(b) + " " + m);
    var r := OrderBy(q, [a, b + " " + m]);
    assert r.Ok?;
    assert r.value.orderBy == [Quote(a) + " ", Quote(b) + " " + m];
    assert Accept(q, ORDER_BY) == Ok(q);
    assert r.value == q.(orderBy := r.value.orderBy);
  }

  /** The example of the `Query` docstring, for any table and field names:
      `select().where(f=x).or_(g__lte=hi, g__gte=lo).order_by(a, 'b m').limit(n)`. */
  function ExampleCalls(f: string, x: Value, g: string, hi: Value, lo: Value, a: string, b: string, m: string, n: int): seq<Call> {
    [WhereCall([(f, x)]), OrCall([(g + "__lte", hi), (g + "__gte", lo)]), OrderByCall([a, b + " " + m]), LimitCall(n)]
  }

  /** The statement the docstring example builds from `q0`. */
  function ExampleQuery(q0: Query, f: string, x: Value, g: string, hi: Value, lo: Value,
                        a: string, b: string, m: string, n: int): Query {
    q0.(params := q0.params + [x, hi, lo],
        groups := q0.groups + [[Quote(f) + " = %s"], [Quote(g) + " <= %s", Quote(g) + " >= %s"]],
        orderBy := [Quote(a) + " ", Quote(b) + " " + m],
        limit := Some(n))
  }

  /** The docstring chain binds `x, hi, lo` in that order, one WHERE group per
      `where`/`or_` call, on any statement that accepts WHERE, ORDER BY and LIMIT. */
  lemma DocstringBuild(q0: Query, f: string, x: Value, g: string, hi: Value, lo: Value,
                       a: string, b: string, m: string, n: int)
    requires {WHERE, ORDER_BY, LIMIT} <= q0.declared
    requires PlainName(f) && !x.Null?
    requires |a| > 0 && NoSpace(a) && |b| > 0 && NoSpace(b) && |m| > 0 && NoSpace(m)
    ensures Chain(q0, ExampleCalls(f, x, g, hi, lo, a, b, m, n)) == Ok(ExampleQuery(q0, f, x, g, hi, lo, a, b, m, n))
  {
    var q2 := q0.(params := q0.params + [x, hi, lo],
                  groups := q0.groups + [[Quote(f) + " = %s"], [Quote(g) + " <= %s", Quote(g) + " >= %s"]]);
    var first := [WhereCall([(f, x)]), OrCall([(g + "__lte", hi), (g + "__gte", lo)])];
    var second := [OrderByCall([a, b + " " + m]), LimitCall(n)];
    WhereThenOr(q0, f, x, g, hi, lo);
    OrderThenLimit(q2, a, b, m, n);
    ChainAppend(q0, first, second, q2);
    assert ExampleCalls(f, x, g, hi, lo, a, b, m, n) == first + second;
  }

  /** Chaining two call sequences is chaining the second on the result of the first. */
  lemma {:induction false} ChainAppend(q: Query, cs: seq<Call>, ds: seq<Call>, mid: Query)
    requires Chain(q, cs) == Ok(mid)
    ensures Chain(q, cs + ds) == Chain(mid, ds)
    decreases |cs|
  {
    if |cs| > 0 {
      var next := Apply(q, cs[0]).value;
      assert (cs + ds)[1..] == cs[1..] + ds;
      ChainAppend(next, cs[1..], ds, mid);
    } else {
      assert cs + ds == ds;
    }
  }

  /** The first half of the docstring chain: `where(f=x).or_(g__lte=hi, g__gte=lo)`. */
  lemma WhereThenOr(q0: Query, f: string, x: Value, g: string, hi: Value, lo: Value)
    requires WHERE in q0.declared && PlainName(f) && !x.Null?
    ensures Chain(q0, [WhereCall([(f, x)]), OrCall([(g + "__lte", hi), (g + "__gte", lo)])])
         == Ok(q0.(params := q0.params + [x, hi, lo],
                   groups := q0.groups + [[Quote(f) + " = %s"], [Quote(g) + " <= %s", Quote(g) + " >= %s"]]))
  {
    var q1 := q0.(params := q0.params + [x], groups := q0.groups + [[Quote(f) + " = %s"]]);
    var q2 := q1.(params := q1.params + [hi, lo], groups := q1.groups + [[Quote(g) + " <= %s", Quote(g) + " >= %s"]]);
    WhereEquality(q0, f, x);
    OrRange(q1, g, hi, lo);
    ChainTwo(q0, WhereCall([(f, x)]), OrCall([(g + "__lte", hi), (g + "__gte", lo)]), q1, q2);
    assert q2.params == q0.params + [x, hi, lo];
    assert q2.groups == q0.groups + [[Quote(f) + " = %s"], [Quote(g) + " <= %s", Quote(g) + " >= %s"]];
  }

  /** The second half of the docstring chain: `order_by(a, 'b m').limit(n)`. */
  lemma OrderThenLimit(q: Query, a: string, b: string, m: string, n: int)
    requires {ORDER_BY, LIMIT} <= q.declared
    requires |a| > 0 && NoSpace(a) && |b| > 0 && NoSpace(b) && |m| > 0 && NoSpace(m)
    ensures Chain(q, [OrderByCall([a, b + " " + m]), LimitCall(n)])
         == Ok(q.(orderBy := [Quote(a) + " ", Quote(b) + " " + m], limit := Some(n)))
  {
    var q1 := q.(orderBy := [Quote(a) + " ", Quote(b) + " " + m]);
    OrderByPair(q, a, b, m);
    LimitValue(q1, n);
    ChainTwo(q, OrderByCall([a, b + " " + m]), LimitCall(n), q1, q1.(limit := Some(n)));
  }

  /** Step fact: `limit(n)` on a query that declares LIMIT. */
  lemma LimitValue(q: Query, n: int)
    requires LIMIT in q.declared
    ensures Limit(q, n) == Ok(q.(limit := Some(n)))
  {
  }

  /** The docstring statement renders the first group bare, the second
      parenthesised and AND-joined, the groups OR-joined, then ORDER BY and LIMIT. */
  lemma DocstringRender(t: string, fields: seq<string>, f: string, x: Value, g: string, hi: Value, lo: Value,
                        a: string, b: string, m: string, n: int)
    ensures
      var (eq, lte, gte) := (Quote(f) + " = %s", Quote(g) + " <= %s", Quote(g) + " >= %s");
      Render(ExampleQuery(Select(t, fields), f, x, g, hi, lo, a, b, m, n)) == Ok(Select(t, fields).base
        + (" WHERE " + eq + " OR (" + lte + " AND " + gte + ")")
        + (" ORDER BY " + (Quote(a) + " ") + ", " + (Quote(b) + " " + m))
        + (" LIMIT " + IntToString(n)))
  {
    var q := ExampleQuery(Select(t, fields), f, x, g, hi, lo, a, b, m, n);
    assert q.groups == [[Quote(f) + " = %s"], [Quote(g) + " <= %s", Quote(g) + " >= %s"]];
    RenderExample(q, Quote(f) + " = %s", Quote(g) + " <= %s", Quote(g) + " >= %s", Quote(a) + " ", Quote(b) + " " + m);
  }

  lemma GroupTextsPair(g1: seq<string>, g2: seq<string>, x: string, y: string)
    requires GroupText(g1) == Ok(x) && GroupText(g2) == Ok(y)
    ensures GroupTexts([g1, g2]) == Ok([x, y])
  {
    var r := GroupTexts([g1, g2]);
    assert r.Ok?;
    assert r.value == [x, y];
  }

  /** Rendering of a SELECT with one bare group, one group of two terms, two
      ORDER BY items and a limit. */
  lemma RenderExample(q: Query, e: string, c1: string, c2: string, o1: string, o2: string)
    requires q.columns == [] && q.assignments == [] && q.returning == []
    requires q.groups == [[e], [c1, c2]] && q.orderBy == [o1, o2] && q.limit.Some?
    ensures Render(q) == Ok(q.base
                            + (" WHERE " + e + " OR (" + c1 + " AND " + c2 + ")")
                            + (" ORDER BY " + o1 + ", " + o2)
                            + (" LIMIT " + IntToString(q.limit.value)))
  {
    var where := " WHERE " + e + " OR (" + c1 + " AND " + c2 + ")";
    ExampleWhere(e, c1, c2);
    var order := " ORDER BY " + o1 + ", " + o2;
    assert OrderByText(q.orderBy) == order by {
      JoinTwo(", ", o1, o2);
    }
    var limit := " LIMIT " + IntToString(q.limit.value);
    assert LimitText(q.limit) == limit;
    assert ValuesText([]) == "" && SetText([]) == "" && ReturningText([]) == "";
    assert Render(q) == Ok(q.base + "" + "" + where + order + limit + "");
    assert q.base + "" + "" + where + order + limit + "" == q.base + where + order + limit;
  }

  /** The WHERE clause of one bare group and one group of two terms. */
  lemma ExampleWhere(e: string, c1: string, c2: string)
    ensures WhereText([[e], [c1, c2]]) == Ok(" WHERE " + e + " OR (" + c1 + " AND " + c2 + ")")
  {
    JoinTwo(" AND ", c1, c2);
    var second := "(" + c1 + " AND " + c2 + ")";
    assert "(" + Join(" AND ", [c1, c2]) + ")" == second;
    assert GroupText([c1, c2]) == Ok(second);
    assert GroupText([e]) == Ok(e);
    GroupTextsPair([e], [c1, c2], e, second);
    JoinTwo(" OR ", e, second);
    var where := " WHERE " + e + " OR " + second;
    assert " WHERE " + Join(" OR ", [e, second]) == where;
    assert WhereText([[e], [c1, c2]]) == Ok(where);
    assert where == " WHERE " + e + " OR (" + c1 + " AND " + c2 + ")";
  }

  /** An UPDATE with SET terms and a single one-term WHERE group. */
  lemma RenderSetWhereOne(q: Query, cond: string)
    requires q.columns == [] && |q.assignments| > 0 && q.groups == [[cond]]
    requires q.orderBy == [] && q.limit == None && q.returning == []
    ensures Render(q) == Ok(q.base + SetText(q.assignments) + (" WHERE " + cond))
  {
    assert GroupTexts([[cond]]) == Ok([cond]) by {
      var r := GroupTexts([[cond]]);
      assert r.Ok? && r.value == [cond];
    }
    assert Join(" OR ", [cond]) == cond;
    assert WhereText(q.groups) == Ok(" WHERE " + cond);
    var st := SetText(q.assignments);
    assert ValuesText(q.columns) == "" && OrderByText(q.orderBy) == "";
    assert LimitText(q.limit) == "" && ReturningText(q.returning) == "";
    assert Render(q) == Ok(q.base + "" + st + (" WHERE " + cond) + "" + "" + "");
    assert q.base + "" + st + (" WHERE " + cond) + "" + "" + "" == q.base + st + (" WHERE " + cond);
  }

  /** `update(t).where(a=v).set(b=w)` as a value: the WHERE value is bound first. */
  lemma UpdateWhereSet(t: string, a: string, v: Value, b: string, w: Value)
    requires PlainName(a) && PlainName(b) && !v.Null? && !w.Null?
    ensures Chain(Update(t), [WhereCall([(a, v)]), SetCall([(b, w)])])
         == Ok(Query("UPDATE " + t, [v, w], {SET, WHERE, RETURNING}, [], [Quote(b) + " = %s"], [[Quote(a) + " = %s"]], [], None, []))
  {
    WhereEquality(Update(t), a, v);
    var q1 := Update(t).(params := [] + [v], groups := [] + [[Quote(a) + " = %s"]]);
    SetEquality(q1, b, w);
    var q2 := q1.(params := q1.params + [w], assignments := q1.assignments + [Quote(b) + " = %s"]);
    var cs := [WhereCall([(a, v)]), SetCall([(b, w)])];
    ChainTwo(Update(t), cs[0], cs[1], q1, q2);
    assert q2.params == [v, w];
    assert q2.groups == [[Quote(a) + " = %s"]];
    assert q2.assignments == [Quote(b) + " = %s"];
  }

  /** `set(name=v)` with a plain name adds one assignment and binds `v`. */
  lemma SetEquality(q: Query, name: string, v: Value)
    requires SET in q.declared && PlainName(name) && !v.Null?
    ensures Set(q, [(name, v)]) == Ok(q.(params := q.params + [v], assignments := q.assignments + [Quote(name) + " = %s"]))
  {
    PlainKeyIsEquality(name, v);
    ParseQargsSingle(name, v);
    var r := Set(q, [(name, v)]);
    assert r.value.params == q.params + [v];
    assert r.value.assignments == q.assignments + [Quote(name) + " = %s"];
  }

  /** Parameters are bound in call order while the clauses are rendered in a
      fixed order: an `update` that calls `where` before `set` binds the WHERE
      value to the SET placeholder. */
  lemma ParamsFollowCallOrder(t: string, a: string, v: Value, b: string, w: Value)
    requires PlainName(a) && PlainName(b) && !v.Null? && !w.Null?
    ensures
      var q := Chain(Update(t), [WhereCall([(a, v)]), SetCall([(b, w)])]);
      && q.Ok?
      && q.value.params == [v, w]
      && Render(q.value) == Ok("UPDATE " + t + (" SET " + Quote(b) + " = %s") + (" WHERE " + Quote(a) + " = %s"))
  {
    UpdateWhereSet(t, a, v, b, w);
    UpdateRenders(t, a, v, b, w);
  }

  /** The query `UpdateWhereSet` builds renders SET before WHERE. */
  lemma UpdateRenders(t: string, a: string, v: Value, b: string, w: Value)
    ensures Render(Query("UPDATE " + t, [v, w], {SET, WHERE, RETURNING}, [], [Quote(b) + " = %s"], [[Quote(a) + " = %s"]], [], None, []))
         == Ok("UPDATE " + t + (" SET " + Quote(b) + " = %s") + (" WHERE " + Quote(a) + " = %s"))
  {
    var assignment := Quote(b) + " = %s";
    var q := Query("UPDATE " + t, [v, w], {SET, WHERE, RETURNING}, [], [assignment], [[Quote(a) + " = %s"]], [], None, []);
    var cond := Quote(a) + " = %s";
    RenderSetWhereOne(q, cond);
    assert SetText([assignment]) == " SET " + assignment;
    assert " SET " + assignment == " SET " + Quote(b) + " = %s";
    assert " WHERE " + cond == " WHERE " + Quote(a) + " = %s";
  }
}
