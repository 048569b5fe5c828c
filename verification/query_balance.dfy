/** Chains of builder calls: which clauses a chain may use, and the balance
    between `%s` placeholders in the rendered text and the parameters bound.
 */
module QueryBalance {

  import opened Results
  import opened Datum
  import opened Text
  import opened QueryBuilder

  // ---------------------------------------------------------------------------
  // Chains of builder calls
  // ---------------------------------------------------------------------------

  /** One builder call, as the callers chain them. */
  datatype Call =
    | WhereCall(kw: Kwargs)
    | OrCall(kw: Kwargs)
    | SetCall(kw: Kwargs)
    | ValuesCall(kw: Kwargs)
    | OrderByCall(fields: seq<string>)
    | LimitCall(n: int)
    | ReturningCall(columns: seq<string>)

  /** The clause a call needs. */
  function KindOf(c: Call): Kind {
    match c
    case WhereCall(_) => WHERE
    case OrCall(_) => WHERE
    case SetCall(_) => SET
    case ValuesCall(_) => VALUES
    case OrderByCall(_) => ORDER_BY
    case LimitCall(_) => LIMIT
    case ReturningCall(_) => RETURNING
  }

  function Apply(q: Query, c: Call): Result<Query> {
    match c
    case WhereCall(kw) => Where(q, kw)
    case OrCall(kw) => Or(q, kw)
    case SetCall(kw) => Set(q, kw)
    case ValuesCall(kw) => Values(q, kw)
    case OrderByCall(fields) => OrderBy(q, fields)
    case LimitCall(n) => Limit(q, n)
    case ReturningCall(columns) => Returning(q, columns)
  }

  /** `q.c0(...).c1(...)...`: the first failing call ends the chain. */
  function Chain(q: Query, cs: seq<Call>): Result<Query>
    decreases |cs|
  {
    if |cs| == 0 then Ok(q)
    else
      var next :- Apply(q, cs[0]);
      Chain(next, cs[1..])
  }

  lemma ChainCons(q: Query, c: Call, cs: seq<Call>, next: Query)
    requires Apply(q, c) == Ok(next)
    ensures Chain(q, [c] + cs) == Chain(next, cs)
  {
    assert ([c] + cs)[1..] == cs;
  }

  /** A chain of two calls. */
  lemma ChainTwo(q0: Query, c0: Call, c1: Call, q1: Query, q2: Query)
    requires Apply(q0, c0) == Ok(q1) && Apply(q1, c1) == Ok(q2)
    ensures Chain(q0, [c0, c1]) == Ok(q2)
  {
    assert [c0, c1] == [c0] + ([c1] + []);
    ChainCons(q0, c0, [c1] + [], q1);
    ChainCons(q1, c1, [], q2);
  }

  /** A call keeps the base text and the declared clauses, and fails exactly with
      `NotValid` when its clause is not declared. */
  lemma ApplyLegality(q: Query, c: Call)
    ensures KindOf(c) !in q.declared ==> Apply(q, c) == Err(NotValid(KindOf(c)))
    ensures Apply(q, c).Ok? ==> Apply(q, c).value.declared == q.declared && Apply(q, c).value.base == q.base
    ensures Apply(q, c).Err? && KindOf(c) in q.declared ==> !(c.LimitCall? || c.ReturningCall? || c.ValuesCall?)
  {
  }

  /** The constructor alone decides which clauses a chain may use: a chain that
      calls an undeclared clause anywhere fails, and a successful chain keeps
      the base text and the declared clauses. */
  lemma {:induction false} ChainLegality(q: Query, cs: seq<Call>)
    ensures Chain(q, cs).Ok? ==> Chain(q, cs).value.declared == q.declared && Chain(q, cs).value.base == q.base
    ensures (exists i | 0 <= i < |cs| :: KindOf(cs[i]) !in q.declared) ==> Chain(q, cs).Err?
    decreases |cs|
  {
    if |cs| > 0 {
      ApplyLegality(q, cs[0]);
      var r := Apply(q, cs[0]);
      if r.Ok? {
        ChainLegality(r.value, cs[1..]);
        if exists i | 0 <= i < |cs| :: KindOf(cs[i]) !in q.declared {
          var i :| 0 <= i < |cs| && KindOf(cs[i]) !in q.declared;
          assert i > 0;
          assert KindOf(cs[1..][i - 1]) !in r.value.declared;
        }
      }
    }
  }

  // ---------------------------------------------------------------------------
  // Placeholder balance
  // ---------------------------------------------------------------------------

  predicate NoPercent(s: string) {
    '%' !in s
  }

  lemma NoPercentFacts(s: string)
    requires NoPercent(s)
    ensures Percents(s) == 0 && OnlyPlaceholders(s)
  {
    NoPercentPlaceholders(s);
  }

  /** Placeholder facts of two texts carry over to their concatenation. */
  lemma Glue(a: string, b: string)
    requires OnlyPlaceholders(a) && OnlyPlaceholders(b)
    ensures Percents(a + b) == Percents(a) + Percents(b)
    ensures OnlyPlaceholders(a + b)
  {
    PercentsAppend(a, b);
    OnlyPlaceholdersAppend(a, b);
  }

  /** Sum of the placeholders of all WHERE groups. */
  function GroupPercents(groups: seq<seq<string>>): nat {
    if |groups| == 0 then 0 else SumPercents(groups[0]) + GroupPercents(groups[1..])
  }

  /** The builder's invariant: names carry no `%`, every `%` in a term opens a
      `%s`, and the placeholders of all clauses add up to the parameters bound. */
  predicate Balanced(q: Query) {
    && NoPercent(q.base)
    && (forall i | 0 <= i < |q.columns| :: NoPercent(q.columns[i]))
    && (forall i | 0 <= i < |q.assignments| :: OnlyPlaceholders(q.assignments[i]))
    && (forall i, j | 0 <= i < |q.groups| && 0 <= j < |q.groups[i]| :: OnlyPlaceholders(q.groups[i][j]))
    && (forall i | 0 <= i < |q.orderBy| :: NoPercent(q.orderBy[i]))
    && (forall i | 0 <= i < |q.returning| :: NoPercent(q.returning[i]))
    && |q.columns| + SumPercents(q.assignments) + GroupPercents(q.groups) == |q.params|
  }

  lemma {:induction false} SumPercentsNone(xs: seq<string>)
    requires forall i | 0 <= i < |xs| :: NoPercent(xs[i])
    ensures SumPercents(xs) == 0
    decreases |xs|
  {
    if |xs| > 0 {
      SumPercentsNone(xs[1..]);
    }
  }

  lemma {:induction false} SumPercentsRepeat(n: nat)
    ensures SumPercents(Repeat("%s", n)) == n
    decreases n
  {
    if n > 0 {
      assert Repeat("%s", n)[1..] == Repeat("%s", n - 1);
      assert Percents("%s") == 1;
      SumPercentsRepeat(n - 1);
    }
  }

  lemma JoinClean(sep: string, xs: seq<string>)
    requires NoPercent(sep)
    requires forall i | 0 <= i < |xs| :: NoPercent(xs[i])
    ensures Percents(Join(sep, xs)) == 0 && OnlyPlaceholders(Join(sep, xs))
    ensures NoPercent(Join(sep, xs))
  {
    NoPercentFacts(sep);
    forall i | 0 <= i < |xs|
      ensures OnlyPlaceholders(xs[i])
    {
      NoPercentFacts(xs[i]);
    }
    JoinPlaceholders(sep, xs);
    SumPercentsNone(xs);
    assert '%' !in multiset(Join(sep, xs));
  }

  /** A `%`-free text adds nothing to the placeholders of the text it is glued to. */
  lemma Around(before: string, body: string, after: string)
    requires NoPercent(before) && NoPercent(after) && OnlyPlaceholders(body)
    ensures Percents(before + body + after) == Percents(body)
    ensures OnlyPlaceholders(before + body + after)
  {
    NoPercentFacts(before);
    NoPercentFacts(after);
    Glue(before, body);
    Glue(before + body, after);
  }

  lemma HolesPlaceholders(n: nat)
    ensures Percents(Join(", ", Repeat("%s", n))) == n
    ensures OnlyPlaceholders(Join(", ", Repeat("%s", n)))
  {
    assert OnlyPlaceholders("%s");
    NoPercentFacts(", ");
    JoinPlaceholders(", ", Repeat("%s", n));
    SumPercentsRepeat(n);
  }

  lemma ColumnListClean(columns: seq<string>)
    requires forall i | 0 <= i < |columns| :: NoPercent(columns[i])
    ensures NoPercent(" (" + Join(", ", columns) + ") VALUES (")
  {
    JoinClean(", ", columns);
    ColumnHeadClean(Join(", ", columns));
  }

  lemma ColumnHeadClean(names: string)
    requires NoPercent(names)
    ensures NoPercent(" (" + names + ") VALUES (")
  {
    var s := " (" + names + ") VALUES (";
    forall i | 0 <= i < |s|
      ensures s[i] != '%'
    {
      if 2 <= i < 2 + |names| {
        assert s[i] == names[i - 2];
      }
    }
  }

  lemma ValuesTextPlaceholders(columns: seq<string>)
    requires forall i | 0 <= i < |columns| :: NoPercent(columns[i])
    ensures Percents(ValuesText(columns)) == |columns| && OnlyPlaceholders(ValuesText(columns))
  {
    if |columns| > 0 {
      var head := " (" + Join(", ", columns) + ") VALUES (";
      var holes := Join(", ", Repeat("%s", |columns|));
      ColumnListClean(columns);
      HolesPlaceholders(|columns|);
      Around(head, holes, ")");
    }
  }

  lemma SetTextPlaceholders(assignments: seq<string>)
    requires forall i | 0 <= i < |assignments| :: OnlyPlaceholders(assignments[i])
    ensures Percents(SetText(assignments)) == SumPercents(assignments) && OnlyPlaceholders(SetText(assignments))
  {
    if |assignments| > 0 {
      var body := Join(", ", assignments);
      JoinWith(", ", assignments);
      SetAround(assignments, body);
    }
  }

  lemma SetAround(assignments: seq<string>, body: string)
    requires |assignments| > 0 && body == Join(", ", assignments)
    requires Percents(body) == SumPercents(assignments) && OnlyPlaceholders(body)
    ensures Percents(SetText(assignments)) == SumPercents(assignments) && OnlyPlaceholders(SetText(assignments))
  {
    Prefixed(" SET ", body);
  }

  /** Joining placeholder texts with a separator free of `%`. */
  lemma JoinWith(sep: string, xs: seq<string>)
    requires NoPercent(sep) && forall i | 0 <= i < |xs| :: OnlyPlaceholders(xs[i])
    ensures Percents(Join(sep, xs)) == SumPercents(xs) && OnlyPlaceholders(Join(sep, xs))
  {
    NoPercentFacts(sep);
    JoinPlaceholders(sep, xs);
  }

  /** A prefix free of `%` adds no placeholder. */
  lemma Prefixed(before: string, body: string)
    requires NoPercent(before) && OnlyPlaceholders(body)
    ensures Percents(before + body) == Percents(body) && OnlyPlaceholders(before + body)
  {
    NoPercentFacts(before);
    Glue(before, body);
  }

  lemma GroupTextPlaceholders(terms: seq<string>)
    requires forall j | 0 <= j < |terms| :: OnlyPlaceholders(terms[j])
    requires GroupText(terms).Ok?
    ensures Percents(GroupText(terms).value) == SumPercents(terms)
    ensures OnlyPlaceholders(GroupText(terms).value)
  {
    if |terms| > 1 {
      JoinWith(" AND ", terms);
      Around("(", Join(" AND ", terms), ")");
    } else {
      SingleSum(terms);
    }
  }

  lemma SingleSum(terms: seq<string>)
    requires |terms| == 1
    ensures SumPercents(terms) == Percents(terms[0])
  {
    assert terms[1..] == [];
  }

  lemma {:induction false} GroupTextsPlaceholders(groups: seq<seq<string>>)
    requires forall i, j | 0 <= i < |groups| && 0 <= j < |groups[i]| :: OnlyPlaceholders(groups[i][j])
    requires GroupTexts(groups).Ok?
    ensures SumPercents(GroupTexts(groups).value) == GroupPercents(groups)
    ensures forall i | 0 <= i < |groups| :: OnlyPlaceholders(GroupTexts(groups).value[i])
    decreases |groups|
  {
    if |groups| > 0 {
      var texts := GroupTexts(groups).value;
      GroupTextPlaceholders(groups[0]);
      assert GroupTexts(groups[1..]).Ok?;
      GroupTextsPlaceholders(groups[1..]);
      assert texts[1..] == GroupTexts(groups[1..]).value;
      forall i | 0 <= i < |groups|
        ensures OnlyPlaceholders(texts[i])
      {
        GroupTextPlaceholders(groups[i]);
      }
    }
  }

  lemma WhereTextPlaceholders(groups: seq<seq<string>>)
    requires forall i, j | 0 <= i < |groups| && 0 <= j < |groups[i]| :: OnlyPlaceholders(groups[i][j])
    requires WhereText(groups).Ok?
    ensures Percents(WhereText(groups).value) == GroupPercents(groups)
    ensures OnlyPlaceholders(WhereText(groups).value)
  {
    if |groups| > 0 {
      var texts := GroupTexts(groups).value;
      var body := Join(" OR ", texts);
      assert Percents(body) == GroupPercents(groups) && OnlyPlaceholders(body) by {
        GroupTextsPlaceholders(groups);
        NoPercentFacts(" OR ");
        JoinPlaceholders(" OR ", texts);
      }
      Around(" WHERE ", body, "");
      assert WhereText(groups).value == " WHERE " + body + "";
    }
  }

  lemma DigitsClean(n: nat)
    ensures NoPercent(NatToString(n))
  {
    var digits := NatToString(n);
    assert forall i | 0 <= i < |digits| :: digits[i] != '%';
  }

  lemma CleanTexts(orderBy: seq<string>, limit: Option<int>, returning: seq<string>)
    requires forall i | 0 <= i < |orderBy| :: NoPercent(orderBy[i])
    requires forall i | 0 <= i < |returning| :: NoPercent(returning[i])
    ensures NoPercent(OrderByText(orderBy)) && NoPercent(LimitText(limit)) && NoPercent(ReturningText(returning))
  {
    if |orderBy| > 0 {
      assert NoPercent(Join(", ", orderBy)) by {
        JoinClean(", ", orderBy);
      }
    }
    if |returning| > 0 {
      assert NoPercent(Join(", ", returning)) by {
        JoinClean(", ", returning);
      }
    }
    if limit.Some? {
      var n := limit.value;
      DigitsClean(if n < 0 then -n else n);
    }
  }

  /** The seven clause texts of a statement glue into one text whose placeholders
      are those of its parts. */
  lemma Assemble(base: string, values: string, assigns: string, where: string, order: string, limit: string, returning: string)
    requires NoPercent(base) && NoPercent(order) && NoPercent(limit) && NoPercent(returning)
    requires OnlyPlaceholders(values) && OnlyPlaceholders(assigns) && OnlyPlaceholders(where)
    ensures Percents(base + values + assigns + where + order + limit + returning)
         == Percents(values) + Percents(assigns) + Percents(where)
    ensures OnlyPlaceholders(base + values + assigns + where + order + limit + returning)
  {
    NoPercentFacts(base);
    NoPercentFacts(order);
    NoPercentFacts(limit);
    NoPercentFacts(returning);
    Glue(base, values);
    Glue(base + values, assigns);
    Glue(base + values + assigns, where);
    Glue(base + values + assigns + where, order);
    Glue(base + values + assigns + where + order, limit);
    Glue(base + values + assigns + where + order + limit, returning);
  }

  lemma BalancedClauses(q: Query)
    requires Balanced(q) && Render(q).Ok?
    ensures Percents(ValuesText(q.columns)) == |q.columns| && OnlyPlaceholders(ValuesText(q.columns))
    ensures Percents(SetText(q.assignments)) == SumPercents(q.assignments) && OnlyPlaceholders(SetText(q.assignments))
    ensures WhereText(q.groups).Ok?
    ensures Percents(WhereText(q.groups).value) == GroupPercents(q.groups) && OnlyPlaceholders(WhereText(q.groups).value)
    ensures NoPercent(OrderByText(q.orderBy)) && NoPercent(LimitText(q.limit)) && NoPercent(ReturningText(q.returning))
  {
    ValuesTextPlaceholders(q.columns);
    SetTextPlaceholders(q.assignments);
    WhereTextPlaceholders(q.groups);
    CleanTexts(q.orderBy, q.limit, q.returning);
  }

  /** In a balanced statement the rendered text has exactly one `%s` per bound parameter. */
  lemma RenderPlaceholders(q: Query)
    requires Balanced(q) && Render(q).Ok?
    ensures Percents(Render(q).value) == |q.params|
    ensures OnlyPlaceholders(Render(q).value)
  {
    BalancedClauses(q);
    Assemble(q.base, ValuesText(q.columns), SetText(q.assignments), WhereText(q.groups).value,
             OrderByText(q.orderBy), LimitText(q.limit), ReturningText(q.returning));
  }

  // ---------------------------------------------------------------------------
  // parse_qargs keeps the balance
  // ---------------------------------------------------------------------------

  lemma CleanConcat(a: string, b: string)
    requires NoPercent(a) && NoPercent(b)
    ensures NoPercent(a + b)
  {
    assert multiset(a + b) == multiset(a) + multiset(b);
  }

  /** The field name split off a `%`-free key is `%`-free. */
  lemma KeyNameClean(k: string)
    requires NoPercent(k)
    ensures NoPercent(SplitKey(k).0)
  {
    match RSplitSeparator(k)
    case None =>
    case Some((name, op)) =>
      assert k == name + ("__" + op);
      assert forall i | 0 <= i < |name| :: name[i] == k[i];
  }

  lemma QuoteClean(name: string)
    requires NoPercent(name)
    ensures NoPercent(Quote(name))
  {
    CleanConcat("\"", name);
    CleanConcat("\"" + name, "\"");
  }

  /** Step fact: no comparison symbol of the operator table holds `%`. */
  lemma SymbolClean(op: string)
    ensures DecodeOp(op).Compare? ==> NoPercent(DecodeOp(op).symbol)
  {
  }

  /** A term with one `%s` between `%`-free text. */
  lemma HoleTerm(head: string, pre: string, post: string)
    requires NoPercent(head) && NoPercent(pre) && NoPercent(post)
    ensures Percents(head + pre + "%s" + post) == 1
    ensures OnlyPlaceholders(head + pre + "%s" + post)
  {
    CleanConcat(head, pre);
    assert OnlyPlaceholders("%s") && Percents("%s") == 1;
    Around(head + pre, "%s", post);
  }

  /** Terms whose placeholders match the values they bind, one for one. */
  predicate BalancedTerms(terms: seq<string>, values: seq<Value>) {
    && SumPercents(terms) == |values|
    && forall i | 0 <= i < |terms| :: OnlyPlaceholders(terms[i])
  }

  lemma SingleTerm(t: string, values: seq<Value>)
    requires Percents(t) == |values| && OnlyPlaceholders(t)
    ensures BalancedTerms([t], values)
  {
    assert [t][1..] == [];
  }

  lemma CleanTerm(t: string)
    requires NoPercent(t)
    ensures BalancedTerms([t], [])
  {
    NoPercentFacts(t);
    SingleTerm(t, []);
  }

  lemma HoleTermBalanced(t: string, head: string, pre: string, post: string, v: Value)
    requires NoPercent(head) && NoPercent(pre) && NoPercent(post)
    requires t == head + pre + "%s" + post
    ensures BalancedTerms([t], [v])
  {
    HoleTerm(head, pre, post);
    SingleTerm(t, [v]);
  }

  /** One keyword argument binds exactly as many values as its term has placeholders. */
  lemma ParseArgBalanced(k: string, v: Value)
    requires NoPercent(k) && ParseArg(k, v).Ok?
    ensures BalancedTerms(ParseArg(k, v).value.terms, ParseArg(k, v).value.values)
  {
    var (name, op) := SplitKey(k);
    var q := Quote(name);
    assert NoPercent(q) by {
      KeyNameClean(k);
      QuoteClean(name);
    }
    match op
    case Eq =>
      if v.Null? {
        assert ParseArg(k, v) == Ok(Parsed([q + " IS NULL"], []));
        CleanConcat(q, " IS NULL");
        CleanTerm(q + " IS NULL");
      } else {
        assert ParseArg(k, v) == Ok(Parsed([q + " = %s"], [v]));
        HoleTermBalanced(q + " = %s", q, " = ", "", v);
      }
    case Compare(symbol) =>
      assert ParseArg(k, v) == Ok(Parsed([q + " " + symbol + " %s"], [v]));
      SymbolClean(RSplitSeparator(k).value.1);
      CleanConcat(q, " ");
      CleanConcat(q + " ", symbol);
      HoleTermBalanced(q + " " + symbol + " %s", q + " " + symbol, " ", "", v);
    case IsNull =>
      var x := if Truthy(v) then "" else "NOT";
      assert ParseArg(k, v) == Ok(Parsed([q + " IS " + x + " NULL"], []));
      CleanConcat(q, " IS ");
      CleanConcat(q + " IS ", x);
      CleanConcat(q + " IS " + x, " NULL");
      CleanTerm(q + " IS " + x + " NULL");
    case In =>
      var items := ListOf(v).value;
      assert ParseArg(k, v) == Ok(Parsed([q + " = ANY(%s)"], [Array(items)]));
      HoleTermBalanced(q + " = ANY(%s)", q, " = ANY(", ")", Array(items));
    case Ignored =>
  }

  lemma BalancedAppend(t1: seq<string>, v1: seq<Value>, t2: seq<string>, v2: seq<Value>)
    requires BalancedTerms(t1, v1) && BalancedTerms(t2, v2)
    ensures BalancedTerms(t1 + t2, v1 + v2)
  {
    SumPercentsAppend(t1, t2);
  }

  /** Keyword names free of `%`. */
  predicate CleanKeys(kw: Kwargs) {
    forall i | 0 <= i < |kw| :: NoPercent(kw[i].0)
  }

  /** `parse_qargs` binds exactly as many values as its terms have placeholders. */
  lemma {:induction false} ParseQargsBalanced(kw: Kwargs)
    requires CleanKeys(kw) && ParseQargs(kw).Ok?
    ensures BalancedTerms(ParseQargs(kw).value.terms, ParseQargs(kw).value.values)
    decreases |kw|
  {
    if |kw| > 0 {
      var head := ParseArg(kw[0].0, kw[0].1).value;
      var tail := ParseQargs(kw[1..]).value;
      ParseArgBalanced(kw[0].0, kw[0].1);
      ParseQargsBalanced(kw[1..]);
      BalancedAppend(head.terms, head.values, tail.terms, tail.values);
    }
  }

  // ---------------------------------------------------------------------------
  // Every builder call keeps the balance
  // ---------------------------------------------------------------------------

  /** The names a call puts into the text are free of `%`. */
  predicate CleanCall(c: Call) {
    match c
    case WhereCall(kw) => CleanKeys(kw)
    case OrCall(kw) => CleanKeys(kw)
    case SetCall(kw) => CleanKeys(kw)
    case ValuesCall(kw) => CleanKeys(kw)
    case OrderByCall(fields) => forall i | 0 <= i < |fields| :: NoPercent(fields[i])
    case LimitCall(_) => true
    case ReturningCall(columns) => forall i | 0 <= i < |columns| :: NoPercent(columns[i])
  }

  /** The columns a `values` call adds. */
  function NewColumns(c: Call): seq<string> {
    if c.ValuesCall? then QuoteFields(Keys(c.kw)) else []
  }

  lemma {:induction false} GroupPercentsAppend(groups: seq<seq<string>>, terms: seq<string>)
    ensures GroupPercents(groups + [terms]) == GroupPercents(groups) + SumPercents(terms)
    decreases |groups|
  {
    if |groups| == 0 {
      assert groups + [terms] == [terms];
      assert [terms][1..] == [];
    } else {
      assert (groups + [terms])[1..] == groups[1..] + [terms];
      GroupPercentsAppend(groups[1..], terms);
    }
  }

  lemma {:induction false} QuoteFieldsClean(fields: seq<string>)
    requires forall i | 0 <= i < |fields| :: NoPercent(fields[i])
    ensures forall i | 0 <= i < |fields| :: NoPercent(QuoteFields(fields)[i])
    decreases |fields|
  {
    if |fields| > 0 {
      QuoteClean(fields[0]);
      QuoteFieldsClean(fields[1..]);
    }
  }

  lemma OrderItemClean(field: string)
    requires NoPercent(field) && OrderItem(field).Ok?
    ensures NoPercent(OrderItem(field).value)
  {
    var words := Words(field);
    WordsChars(field);
    QuoteClean(words[0]);
    var m := if |words| == 2 then words[1] else "";
    CleanConcat(Quote(words[0]), " ");
    CleanConcat(Quote(words[0]) + " ", m);
  }

  lemma WhereKeepsBalance(q: Query, kw: Kwargs)
    requires Balanced(q) && CleanKeys(kw) && Where(q, kw).Ok?
    ensures Balanced(Where(q, kw).value)
  {
    var p := ParseQargs(kw).value;
    ParseQargsBalanced(kw);
    GroupPercentsAppend(q.groups, p.terms);
    var r := Where(q, kw).value;
    assert r.groups == q.groups + [p.terms];
    assert forall i, j | 0 <= i < |r.groups| && 0 <= j < |r.groups[i]| :: OnlyPlaceholders(r.groups[i][j]) by {
      forall i, j | 0 <= i < |r.groups| && 0 <= j < |r.groups[i]|
        ensures OnlyPlaceholders(r.groups[i][j])
      {
        if i == |q.groups| {
          assert r.groups[i] == p.terms;
        } else {
          assert r.groups[i] == q.groups[i];
        }
      }
    }
  }

  lemma SetKeepsBalance(q: Query, kw: Kwargs)
    requires Balanced(q) && CleanKeys(kw) && Set(q, kw).Ok?
    ensures Balanced(Set(q, kw).value)
  {
    var p := ParseQargs(kw).value;
    ParseQargsBalanced(kw);
    SumPercentsAppend(q.assignments, p.terms);
  }

  lemma ValuesKeepsBalance(q: Query, kw: Kwargs)
    requires Balanced(q) && CleanKeys(kw) && Values(q, kw).Ok?
    requires Distinct(q.columns + QuoteFields(Keys(kw)))
    ensures Balanced(Values(q, kw).value)
  {
    var added := QuoteFields(Keys(kw));
    QuoteFieldsClean(Keys(kw));
    var r := Values(q, kw).value;
    assert r.columns == q.columns + added;
  }

  lemma OrderByKeepsBalance(q: Query, fields: seq<string>)
    requires Balanced(q) && OrderBy(q, fields).Ok?
    requires forall i | 0 <= i < |fields| :: NoPercent(fields[i])
    ensures Balanced(OrderBy(q, fields).value)
  {
    var items := OrderItems(fields).value;
    forall i | 0 <= i < |items|
      ensures NoPercent(items[i])
    {
      OrderItemClean(fields[i]);
    }
  }

  /** Any call whose names are free of `%`, and whose `values` columns are new,
      keeps the builder's balance. */
  lemma ApplyKeepsBalance(q: Query, c: Call)
    requires Balanced(q) && CleanCall(c) && Apply(q, c).Ok?
    requires Distinct(q.columns + NewColumns(c))
    ensures Balanced(Apply(q, c).value)
  {
    match c
    case WhereCall(kw) => WhereKeepsBalance(q, kw);
    case OrCall(kw) => WhereKeepsBalance(q, kw);
    case SetCall(kw) => SetKeepsBalance(q, kw);
    case ValuesCall(kw) => ValuesKeepsBalance(q, kw);
    case OrderByCall(fields) => OrderByKeepsBalance(q, fields);
    case LimitCall(n) =>
    case ReturningCall(columns) =>
  }

  /** The columns the `values` calls of a chain add, in call order. */
  function ChainColumns(cs: seq<Call>): seq<string> {
    if |cs| == 0 then [] else NewColumns(cs[0]) + ChainColumns(cs[1..])
  }

  lemma DistinctPrefix<T>(a: seq<T>, b: seq<T>)
    requires Distinct(a + b)
    ensures Distinct(a)
  {
    assert forall i | 0 <= i < |a| :: (a + b)[i] == a[i];
  }

  lemma ApplyColumns(q: Query, c: Call)
    requires Apply(q, c).Ok? && Distinct(q.columns + NewColumns(c))
    ensures Apply(q, c).value.columns == q.columns + NewColumns(c)
  {
    if !c.ValuesCall? {
      assert NewColumns(c) == [];
    }
  }

  /** Chains of calls with `%`-free names, whose `values` calls never repeat a
      column, keep the builder's balance. */
  lemma {:induction false} ChainKeepsBalance(q: Query, cs: seq<Call>)
    requires Balanced(q) && Chain(q, cs).Ok?
    requires forall i | 0 <= i < |cs| :: CleanCall(cs[i])
    requires Distinct(q.columns + ChainColumns(cs))
    ensures Balanced(Chain(q, cs).value)
    decreases |cs|
  {
    if |cs| > 0 {
      var next := Apply(q, cs[0]).value;
      StepKeepsBalance(q, cs[0], ChainColumns(cs[1..]));
      assert forall i | 0 <= i < |cs[1..]| :: cs[1..][i] == cs[i + 1];
      ChainKeepsBalance(next, cs[1..]);
    }
  }

  /** One call of a chain keeps the balance, and leaves the columns of the
      later `values` calls new. */
  lemma StepKeepsBalance(q: Query, c: Call, later: seq<string>)
    requires Balanced(q) && CleanCall(c) && Apply(q, c).Ok?
    requires Distinct(q.columns + (NewColumns(c) + later))
    ensures Balanced(Apply(q, c).value)
    ensures Distinct(Apply(q, c).value.columns + later)
  {
    StepColumns(q, c, later);
    ApplyKeepsBalance(q, c);
  }

  /** The columns after one call are the old ones and the call's new ones. */
  lemma StepColumns(q: Query, c: Call, later: seq<string>)
    requires Apply(q, c).Ok? && Distinct(q.columns + (NewColumns(c) + later))
    ensures Distinct(q.columns + NewColumns(c))
    ensures Distinct(Apply(q, c).value.columns + later)
  {
    DistinctRegroup(q.columns, NewColumns(c), later);
    ApplyColumns(q, c);
  }

  /** Step fact: distinct columns stay distinct when regrouped, and so does a prefix. */
  lemma DistinctRegroup(a: seq<string>, b: seq<string>, later: seq<string>)
    requires Distinct(a + (b + later))
    ensures Distinct(a + b) && Distinct((a + b) + later)
  {
    assert a + (b + later) == (a + b) + later;
    DistinctPrefix(a + b, later);
  }

  lemma BlankBalanced(base: string, declared: set<Kind>)
    requires NoPercent(base)
    ensures Balanced(Blank(base, declared))
  {
    assert SumPercents([]) == 0 && GroupPercents([]) == 0;
  }

  lemma FieldListClean(fields: seq<string>)
    requires forall i | 0 <= i < |fields| :: NoPercent(fields[i])
    ensures NoPercent(Join(", ", QuoteFields(fields)))
  {
    QuoteFieldsClean(fields);
    JoinClean(", ", QuoteFields(fields));
  }

  lemma SelectBaseClean(table: string, list: string)
    requires NoPercent(table) && NoPercent(list)
    ensures NoPercent("SELECT " + list + " FROM " + table)
  {
    CleanConcat("SELECT ", list);
    CleanConcat("SELECT " + list, " FROM ");
    CleanConcat("SELECT " + list + " FROM ", table);
  }

  /** The constructors that accept clauses start balanced when the table name
      and fields are free of `%`. */
  lemma ConstructorsBalanced(table: string, fields: seq<string>)
    requires NoPercent(table) && forall i | 0 <= i < |fields| :: NoPercent(fields[i])
    ensures Balanced(Insert(table)) && Balanced(Update(table)) && Balanced(Count(table))
    ensures Balanced(Select(table, fields))
  {
    CleanConcat("INSERT INTO ", table);
    BlankBalanced("INSERT INTO " + table, {VALUES, RETURNING});
    CleanConcat("UPDATE ", table);
    BlankBalanced("UPDATE " + table, {SET, WHERE, RETURNING});
    CleanConcat("SELECT COUNT(*) FROM ", table);
    BlankBalanced("SELECT COUNT(*) FROM " + table, {WHERE, ORDER_BY, LIMIT});
    FieldListClean(fields);
    SelectBaseClean(table, Join(", ", QuoteFields(fields)));
    BlankBalanced("SELECT " + Join(", ", QuoteFields(fields)) + " FROM " + table, {WHERE, ORDER_BY, LIMIT});
  }

  /** End to end: a statement built from a constructor and a clean chain renders
      with exactly one `%s` per bound parameter, and no stray `%`. */
  lemma ChainRenderPlaceholders(q: Query, cs: seq<Call>)
    requires Balanced(q) && Chain(q, cs).Ok? && Render(Chain(q, cs).value).Ok?
    requires forall i | 0 <= i < |cs| :: CleanCall(cs[i])
    requires Distinct(q.columns + ChainColumns(cs))
    ensures Percents(Render(Chain(q, cs).value).value) == |Chain(q, cs).value.params|
    ensures OnlyPlaceholders(Render(Chain(q, cs).value).value)
  {
    ChainKeepsBalance(q, cs);
    RenderPlaceholders(Chain(q, cs).value);
  }

  /** Why `ChainRenderPlaceholders` needs distinct columns: a second `values` call
      naming a column again binds a second value but leaves one `%s`. The clean
      chain `insert(table).values(a=x).values(a=y)` starts balanced, yet renders one
      placeholder against two parameters. */
  lemma RepeatedColumnImbalance(table: string, a: string, x: Value, y: Value)
    requires NoPercent(table) && NoPercent(a)
    ensures var cs := [ValuesCall([(a, x)]), ValuesCall([(a, y)])];
      && Balanced(Insert(table))
      && (forall i | 0 <= i < |cs| :: CleanCall(cs[i]))
      && !Distinct(Insert(table).columns + ChainColumns(cs))
      && Chain(Insert(table), cs).Ok?
      && Chain(Insert(table), cs).value.params == [x, y]
      && Render(Chain(Insert(table), cs).value).Ok?
      && Percents(Render(Chain(Insert(table), cs).value).value) == 1
  {
    CleanConcat("INSERT INTO ", table);
    BlankBalanced("INSERT INTO " + table, {VALUES, RETURNING});
    TwiceColumns(a, x, y);
    var q := TwiceValues(table, a, x, y);
    TwiceRender(table, a, q);
  }

  /** The rendered text of that chain holds one `%`. */
  lemma TwiceRender(table: string, a: string, q: Query)
    requires NoPercent(table) && NoPercent(a)
    requires q.base == "INSERT INTO " + table && q.columns == [Quote(a)]
    requires q.assignments == [] && q.groups == [] && q.orderBy == [] && q.limit == None && q.returning == []
    ensures Render(q).Ok? && Percents(Render(q).value) == 1
  {
    RenderOneColumn(q, Quote(a));
    OnePlaceholder("INSERT INTO " + table, Quote(a));
  }

  /** The columns of the chain above: the same quoted name twice. */
  lemma TwiceColumns(a: string, x: Value, y: Value)
    requires NoPercent(a)
    ensures var cs := [ValuesCall([(a, x)]), ValuesCall([(a, y)])];
      && (forall i | 0 <= i < |cs| :: CleanCall(cs[i]))
      && ChainColumns(cs) == [Quote(a), Quote(a)]
      && !Distinct([] + ChainColumns(cs))
  {
    var cs := [ValuesCall([(a, x)]), ValuesCall([(a, y)])];
    assert Keys([(a, x)]) == [a] && Keys([(a, y)]) == [a];
    assert QuoteFields([a]) == [Quote(a)];
    assert CleanCall(cs[0]) && CleanCall(cs[1]);
    assert NewColumns(cs[0]) == [Quote(a)] && NewColumns(cs[1]) == [Quote(a)];
    assert cs[1..] == [ValuesCall([(a, y)])];
    assert ChainColumns(cs[1..][1..]) == [];
    assert ChainColumns(cs[1..]) == [Quote(a)];
    var cols: seq<string> := [] + ChainColumns(cs);
    assert cols == [Quote(a), Quote(a)];
    assert cols[0] == cols[1];
  }

  /** `insert(table).values(a=x).values(a=y)`: one column, both values bound. */
  lemma TwiceValues(table: string, a: string, x: Value, y: Value) returns (q: Query)
    ensures Chain(Insert(table), [ValuesCall([(a, x)]), ValuesCall([(a, y)])]) == Ok(q)
    ensures q == Insert(table).(params := [x, y], columns := [Quote(a)])
  {
    var cs := [ValuesCall([(a, x)]), ValuesCall([(a, y)])];
    var q1 := Insert(table).(params := [x], columns := [Quote(a)]);
    var empty: seq<string> := [];
    ValuesOne(Insert(table), a, x);
    FirstNewOne(empty, Quote(a));
    assert Insert(table).params == [] && Insert(table).columns == empty;
    assert empty + [Quote(a)] == [Quote(a)] && [] + [x] == [x];
    assert Values(Insert(table), [(a, x)]) == Ok(q1);
    ValuesOne(q1, a, y);
    FirstNewOne([Quote(a)], Quote(a));
    q := q1.(params := [x, y]);
    assert Quote(a) in q1.columns;
    assert FirstNew(q1.columns, [Quote(a)]) == [];
    assert q1.columns + [] == q1.columns && q1.params + [y] == [x, y];
    assert Values(q1, [(a, y)]) == Ok(q);
    ApplyValues(Insert(table), [(a, x)], q1);
    ApplyValues(q1, [(a, y)], q);
    ChainTwo(Insert(table), ValuesCall([(a, x)]), ValuesCall([(a, y)]), q1, q);
  }

  /** Step fact: a `values` call in a chain is `Values`. */
  lemma ApplyValues(q: Query, kw: Kwargs, next: Query)
    requires Values(q, kw) == Ok(next)
    ensures Apply(q, ValuesCall(kw)) == Ok(next)
  {
  }

  /** `values(a=x)`: one more parameter, and the quoted name unless already known. */
  lemma ValuesOne(q: Query, a: string, x: Value)
    requires VALUES in q.declared
    ensures Values(q, [(a, x)]) == Ok(q.(params := q.params + [x], columns := q.columns + FirstNew(q.columns, [Quote(a)])))
  {
    assert Keys([(a, x)]) == [a];
    assert QuoteFields([a]) == [Quote(a)];
    assert ArgValues([(a, x)]) == [x];
  }

  /** A single added key is new exactly when the dict lacks it. */
  lemma FirstNewOne(known: seq<string>, c: string)
    ensures FirstNew(known, [c]) == if c in known then [] else [c]
  {
    assert [c][..0] == [];
  }

  /** A query whose only clause is VALUES with one column. */
  lemma RenderOneColumn(q: Query, col: string)
    requires q.columns == [col] && q.assignments == [] && q.groups == []
    requires q.orderBy == [] && q.limit == None && q.returning == []
    ensures Render(q) == Ok(q.base + (" (" + col + ") VALUES (" + "%s" + ")"))
  {
    assert Join(", ", [col]) == col;
    assert Repeat("%s", 1) == ["%s"];
    assert Join(", ", ["%s"]) == "%s";
    var vt := ValuesText([col]);
    assert vt == " (" + col + ") VALUES (" + "%s" + ")";
    assert Render(q) == Ok(q.base + vt + "" + "" + "" + "" + "");
    assert q.base + vt + "" + "" + "" + "" + "" == q.base + vt;
  }

  /** That text holds a single `%`. */
  lemma OnePlaceholder(base: string, col: string)
    requires NoPercent(base) && NoPercent(col)
    ensures Percents(base + (" (" + col + ") VALUES (" + "%s" + ")")) == 1
  {
    var head := ColumnHead(base, col);
    NoPercentPlaceholders(head);
    TailPercents();
    PercentsAppend(head, "%s)");
  }

  /** Step fact: the text before the placeholder has no `%`, and the text is that head then `%s)`. */
  lemma ColumnHead(base: string, col: string) returns (head: string)
    requires NoPercent(base) && NoPercent(col)
    ensures '%' !in head
    ensures base + (" (" + col + ") VALUES (" + "%s" + ")") == head + "%s)"
  {
    head := base + " (" + col + ") VALUES (";
    CleanConcat(base, " (");
    CleanConcat(base + " (", col);
    CleanConcat(base + " (" + col, ") VALUES (");
  }

  /** The tail of that text holds the one `%`. */
  lemma TailPercents()
    ensures Percents("%s)") == 1
  {
    assert multiset("%s)") == multiset{'%', 's', ')'};
  }
}
