/** The immutable SQL builder of `aapi_versioned/base.py`: a statement is a base
    text, a list of bound parameters and the clauses its constructor declared.
    Every builder operation returns a new `Query`; a clause the constructor did
    not declare is a `TypeError`. `Render` is `Query.__str__`.
 */
module QueryBuilder {

  import opened Results
  import opened Datum
  import opened Text

  /** Keyword arguments, in call order (a Python `**kwargs` dict). */
  type Kwargs = seq<(string, Value)>

  /** The names of keyword arguments, or of a model's fields, in order. */
  function Keys<V>(kw: seq<(string, V)>): (r: seq<string>)
    ensures |r| == |kw| && forall i | 0 <= i < |kw| :: r[i] == kw[i].0
  {
    if |kw| == 0 then [] else [kw[0].0] + Keys(kw[1..])
  }

  function ArgValues(kw: Kwargs): (r: seq<Value>)
    ensures |r| == |kw| && forall i | 0 <= i < |kw| :: r[i] == kw[i].1
  {
    if |kw| == 0 then [] else [kw[0].1] + ArgValues(kw[1..])
  }

  /** The keys of the `_clauses` dict. */
  datatype Kind = VALUES | SET | WHERE | ORDER_BY | LIMIT | RETURNING

  function KindName(k: Kind): string {
    match k
    case VALUES => "VALUES"
    case SET => "SET"
    case WHERE => "WHERE"
    case ORDER_BY => "ORDER_BY"
    case LIMIT => "LIMIT"
    case RETURNING => "RETURNING"
  }

  /** The error `accept_clause` raises. */
  function NotValid(k: Kind): Error {
    TypeError("'" + KindName(k) + "' is not valid for this query.")
  }

  /** A statement under construction. `declared` holds the clause kinds the
      constructor put in `_clauses`; the remaining fields are the clause values
      (an undeclared clause keeps its empty value forever). */
  datatype Query = Query(
    base: string,
    params: seq<Value>,
    declared: set<Kind>,
    columns: seq<string>,        // VALUES: quoted column names of the dict, in insertion order
    assignments: seq<string>,    // SET terms
    groups: seq<seq<string>>,    // WHERE: one tuple of terms per where/or_ call
    orderBy: seq<string>,        // ORDER_BY items
    limit: Option<int>,          // LIMIT
    returning: seq<string>)      // RETURNING columns, unquoted

  function Blank(base: string, declared: set<Kind>): Query {
    Query(base, [], declared, [], [], [], [], None, [])
  }

  /** `quote_fields`: each field between double quotes, in order. */
  function QuoteFields(fields: seq<string>): (r: seq<string>)
    ensures |r| == |fields|
    ensures forall i | 0 <= i < |r| ::
      && |r[i]| == |fields[i]| + 2
      && r[i][0] == '"' && r[i][|r[i]| - 1] == '"'
      && r[i][1..|r[i]| - 1] == fields[i]
  {
    if |fields| == 0 then [] else [Quote(fields[0])] + QuoteFields(fields[1..])
  }

  /** Quoting loses nothing: stripping the quotes gives back the fields. */
  lemma QuoteFieldsInjective(a: seq<string>, b: seq<string>)
    requires QuoteFields(a) == QuoteFields(b)
    ensures a == b
  {
    var r := QuoteFields(a);
    assert forall i | 0 <= i < |a| :: a[i] == r[i][1..|r[i]| - 1] == b[i];
  }

  // ---------------------------------------------------------------------------
  // Constructors (the classmethods)
  // ---------------------------------------------------------------------------

  function Copy(table: string, fields: seq<string>): Query {
    Blank("COPY " + table + " (" + Join(", ", QuoteFields(fields)) + ") FROM STDIN", {})
  }

  function Count(table: string): Query {
    Blank("SELECT COUNT(*) FROM " + table, {WHERE, ORDER_BY, LIMIT})
  }

  /** `"f" T` for each entry of the column-definition dict. */
  function ColumnDefs(defs: seq<(string, string)>): (r: seq<string>)
    ensures |r| == |defs|
    ensures forall i | 0 <= i < |defs| :: r[i] == Quote(defs[i].0) + " " + defs[i].1
  {
    if |defs| == 0 then [] else [Quote(defs[0].0) + " " + defs[0].1] + ColumnDefs(defs[1..])
  }

  function CreateTable(table: string, defs: seq<(string, string)>): Query {
    Blank("CREATE TABLE IF NOT EXISTS " + table + " (" + Join(", ", ColumnDefs(defs)) + ")", {})
  }

  function Insert(table: string): Query {
    Blank("INSERT INTO " + table, {VALUES, RETURNING})
  }

  function Select(table: string, fields: seq<string>): Query {
    Blank("SELECT " + Join(", ", QuoteFields(fields)) + " FROM " + table, {WHERE, ORDER_BY, LIMIT})
  }

  function Update(table: string): Query {
    Blank("UPDATE " + table, {SET, WHERE, RETURNING})
  }

  // ---------------------------------------------------------------------------
  // parse_qargs
  // ---------------------------------------------------------------------------

  /** The operator a key suffix selects. */
  datatype Op = Eq | Compare(symbol: string) | IsNull | In | Ignored

  /** `op_map` together with the `eq`, `isnull` and `in` branches. */
  function DecodeOp(op: string): Op {
    if op == "eq" then Eq
    else if op == "lt" then Compare("<")
    else if op == "lte" || op == "le" then Compare("<=")
    else if op == "ne" then Compare("!=")
    else if op == "ge" || op == "gte" then Compare(">=")
    else if op == "gt" then Compare(">")
    else if op == "isnull" then IsNull
    else if op == "in" then In
    else Ignored
  }

  /** A key is split at its last `__` into field name and operator; without `__` the operator is `eq`. */
  function SplitKey(k: string): (r: (string, Op))
    ensures (forall m | 0 <= m < |k| :: !SeparatorAt(k, m)) ==> r == (k, Eq)
  {
    match RSplitSeparator(k)
    case None => (k, Eq)
    case Some((name, op)) => (name, DecodeOp(op))
  }

  /** Condition terms and the values they bind. */
  datatype Parsed = Parsed(terms: seq<string>, values: seq<Value>)

  /** The term (if any) and parameter (if any) for one keyword argument. */
  function ParseArg(k: string, v: Value): (r: Result<Parsed>)
    ensures r.Ok? ==> |r.value.terms| <= 1 && |r.value.values| <= 1
    ensures r.Err? ==> r.error.TypeError? && SplitKey(k).1.In?
  {
    var (name, op) := SplitKey(k);
    match op
    case Eq =>
      if v.Null? then Ok(Parsed([Quote(name) + " IS NULL"], []))
      else Ok(Parsed([Quote(name) + " = %s"], [v]))
    case Compare(symbol) => Ok(Parsed([Quote(name) + " " + symbol + " %s"], [v]))
    case IsNull => Ok(Parsed([Quote(name) + " IS " + (if Truthy(v) then "" else "NOT") + " NULL"], []))
    case In =>
      var items :- ListOf(v);
      Ok(Parsed([Quote(name) + " = ANY(%s)"], [Array(items)]))
    case Ignored => Ok(Parsed([], []))
  }

  /** `parse_qargs`: the terms and values of all keyword arguments, in keyword order. */
  function ParseQargs(kw: Kwargs): (r: Result<Parsed>)
    ensures r.Ok? ==> |r.value.terms| <= |kw| && |r.value.values| <= |kw|
    ensures r.Err? <==> exists i | 0 <= i < |kw| :: ParseArg(kw[i].0, kw[i].1).Err?
    ensures r.Err? ==> r.error.TypeError?
  {
    if |kw| == 0 then Ok(Parsed([], []))
    else
      match ParseArg(kw[0].0, kw[0].1)
      case Err(e) => Err(e)
      case Ok(head) =>
        match ParseQargs(kw[1..])
        case Err(e) =>
          assert forall i | 0 < i < |kw| :: kw[1..][i - 1] == kw[i];
          Err(e)
        case Ok(tail) =>
          assert forall i | 0 < i < |kw| :: kw[1..][i - 1] == kw[i];
          Ok(Parsed(head.terms + tail.terms, head.values + tail.values))
  }

  // ---------------------------------------------------------------------------
  // Builder operations
  // ---------------------------------------------------------------------------

  /** `accept_clause` */
  function Accept(q: Query, k: Kind): (r: Result<Query>)
    ensures r.Ok? <==> k in q.declared
    ensures r.Ok? ==> r.value == q
    ensures r.Err? ==> r.error == NotValid(k)
  {
    if k in q.declared then Ok(q) else Err(NotValid(k))
  }

  function Limit(q: Query, n: int): (r: Result<Query>)
    ensures r.Ok? <==> LIMIT in q.declared
    ensures r.Err? ==> r.error == NotValid(LIMIT)
    ensures r.Ok? ==> r.value.limit == Some(n) && r.value.params == q.params
    ensures r.Ok? ==> r.value.(limit := q.limit) == q
  {
    var q :- Accept(q, LIMIT);
    Ok(q.(limit := Some(n)))
  }

  /** One ORDER BY item: `"name" mod` when the item has two words, `"name" ` otherwise. */
  function OrderItem(field: string): (r: Result<string>)
    ensures r.Err? <==> Words(field) == []
  {
    var words := Words(field);
    if |words| == 0 then Err(IndexError("list index out of range"))
    else Ok(Quote(words[0]) + " " + (if |words| == 2 then words[1] else ""))
  }

  function OrderItems(fields: seq<string>): (r: Result<seq<string>>)
    ensures r.Ok? ==> |r.value| == |fields|
    ensures r.Ok? ==> forall i | 0 <= i < |fields| :: OrderItem(fields[i]) == Ok(r.value[i])
    ensures r.Err? <==> exists i | 0 <= i < |fields| :: OrderItem(fields[i]).Err?
  {
    if |fields| == 0 then Ok([])
    else
      match OrderItem(fields[0])
      case Err(e) => Err(e)
      case Ok(head) =>
        match OrderItems(fields[1..])
        case Err(e) =>
          TailItemFails(fields);
          Err(e)
        case Ok(tail) =>
          ConsItems(fields, head, tail);
          Ok([head] + tail)
  }

  /** Step fact: an item of the tail that fails is an item of the whole that fails. */
  lemma TailItemFails(fields: seq<string>)
    requires |fields| > 0 && exists i | 0 <= i < |fields| - 1 :: OrderItem(fields[1..][i]).Err?
    ensures exists i | 0 <= i < |fields| :: OrderItem(fields[i]).Err?
  {
    var i :| 0 <= i < |fields| - 1 && OrderItem(fields[1..][i]).Err?;
    assert fields[1..][i] == fields[i + 1];
  }

  /** Step fact: the head's item followed by the tail's items are the items of the whole. */
  lemma ConsItems(fields: seq<string>, head: string, tail: seq<string>)
    requires |fields| > 0 && OrderItem(fields[0]) == Ok(head) && |tail| == |fields| - 1
    requires forall i | 0 <= i < |tail| :: OrderItem(fields[1..][i]) == Ok(tail[i])
    ensures forall i | 0 <= i < |fields| :: OrderItem(fields[i]) == Ok(([head] + tail)[i])
  {
    forall i | 0 < i < |fields|
      ensures OrderItem(fields[i]) == Ok(([head] + tail)[i])
    {
      assert fields[1..][i - 1] == fields[i];
    }
  }

  function OrderBy(q: Query, fields: seq<string>): (r: Result<Query>)
    ensures ORDER_BY !in q.declared ==> r == Err(NotValid(ORDER_BY))
    ensures ORDER_BY in q.declared ==> (r.Ok? <==> OrderItems(fields).Ok?)
    ensures r.Ok? ==> |r.value.orderBy| == |fields| && r.value.params == q.params
    ensures r.Ok? ==> r.value.(orderBy := q.orderBy) == q
  {
    var q :- Accept(q, ORDER_BY);
    var items :- OrderItems(fields);
    Ok(q.(orderBy := items))
  }

  function Returning(q: Query, columns: seq<string>): (r: Result<Query>)
    ensures r.Ok? <==> RETURNING in q.declared
    ensures r.Err? ==> r.error == NotValid(RETURNING)
    ensures r.Ok? ==> r.value.returning == columns && r.value.params == q.params
    ensures r.Ok? ==> r.value.(returning := q.returning) == q
  {
    var q :- Accept(q, RETURNING);
    Ok(q.(returning := columns))
  }

  function Set(q: Query, kw: Kwargs): (r: Result<Query>)
    ensures SET !in q.declared ==> r == Err(NotValid(SET))
    ensures SET in q.declared ==> (r.Ok? <==> ParseQargs(kw).Ok?)
    ensures r.Ok? ==>
      var p := ParseQargs(kw).value;
      && r.value.params == q.params + p.values
      && r.value.assignments == q.assignments + p.terms
      && r.value.(params := q.params, assignments := q.assignments) == q
  {
    var q :- Accept(q, SET);
    var p :- ParseQargs(kw);
    Ok(q.(params := q.params + p.values, assignments := q.assignments + p.terms))
  }

  /** The entries of `added` that `known` lacks, each where it first occurs in
      `added`, in order: the keys a dict update adds to a dict holding `known`. */
  function FirstNew(known: seq<string>, added: seq<string>): seq<string>
    decreases |added|
  {
    if |added| == 0 then []
    else
      var init := added[..|added| - 1];
      var last := added[|added| - 1];
      FirstNew(known, init) + (if last in known || last in init then [] else [last])
  }

  /** `FirstNew` holds each column of `added` that `known` lacks, once. */
  lemma {:induction false} FirstNewMembers(known: seq<string>, added: seq<string>)
    ensures forall c :: c in FirstNew(known, added) <==> c in added && c !in known
    ensures Distinct(FirstNew(known, added))
    decreases |added|
  {
    if |added| > 0 {
      var init := added[..|added| - 1];
      var last := added[|added| - 1];
      assert added == init + [last];
      FirstNewMembers(known, init);
    }
  }

  /** `FirstNew` read from the front: the first entry is kept exactly when it is new. */
  lemma {:induction false} FirstNewFront(known: seq<string>, added: seq<string>)
    requires |added| > 0
    ensures FirstNew(known, added)
         == if added[0] in known then FirstNew(known, added[1..]) else [added[0]] + FirstNew(known + [added[0]], added[1..])
    decreases |added|
  {
    if |added| > 1 {
      var a := added[0];
      var init := added[..|added| - 1];
      var z := added[|added| - 1];
      var rest := added[1..];
      assert init[0] == a && init[1..] == rest[..|rest| - 1] && rest[|rest| - 1] == z;
      FirstNewFront(known, init);
      assert z in init <==> z == a || z in init[1..] by {
        assert init == [a] + init[1..];
      }
    }
  }

  /** The dict update `{**old, **{c: '%s' for c in new}}`: known columns keep
      their place and the new ones are appended, once each, in keyword order. */
  function MergeColumns(known: seq<string>, added: seq<string>): (r: seq<string>)
    ensures forall c :: c in r <==> c in known || c in added
    ensures known <= r
    ensures r == known + FirstNew(known, added)
    ensures Distinct(known + added) ==> r == known + added
    decreases |added|
  {
    var r := (
      if |added| == 0 then known
      else
        FirstNewFront(known, added);
        AppendOne(known, added[0], FirstNew(known + [added[0]], added[1..]));
        if Distinct(known + added) then
          MergeDistinct(known, added);
          MergeColumns(known + [added[0]], added[1..])
        else if added[0] in known then MergeColumns(known, added[1..])
        else MergeColumns(known + [added[0]], added[1..]));
    AppendedNew(known, added, r);
    r
  }

  /** Appending one column and then a tail is appending the column-led tail. */
  lemma AppendOne(known: seq<string>, c: string, tail: seq<string>)
    ensures (known + [c]) + tail == known + ([c] + tail)
  {
  }

  /** A column list that is `known` followed by the new entries of `added`
      holds exactly the columns of both and starts with `known`. */
  lemma AppendedNew(known: seq<string>, added: seq<string>, r: seq<string>)
    requires r == known + FirstNew(known, added)
    ensures forall c :: c in r <==> c in known || c in added
    ensures known <= r
  {
    FirstNewMembers(known, added);
  }

  /** Without repeats, the first added column is new and the rest stay free of repeats. */
  lemma MergeDistinct(known: seq<string>, added: seq<string>)
    requires |added| > 0 && Distinct(known + added)
    ensures added[0] !in known && Distinct((known + [added[0]]) + added[1..])
    ensures (known + [added[0]]) + added[1..] == known + added
  {
    assert known + added == (known + [added[0]]) + added[1..];
    assert (known + added)[|known|] == added[0];
    assert forall i | 0 <= i < |known| :: (known + added)[i] == known[i];
  }

  function Values(q: Query, kw: Kwargs): (r: Result<Query>)
    ensures r.Ok? <==> VALUES in q.declared
    ensures r.Err? ==> r.error == NotValid(VALUES)
    ensures r.Ok? ==>
      && r.value.params == q.params + ArgValues(kw)
      && (forall c :: c in r.value.columns <==> c in q.columns || c in QuoteFields(Keys(kw)))
      && q.columns <= r.value.columns
      && r.value.(params := q.params, columns := q.columns) == q
    ensures r.Ok? ==> r.value.columns == q.columns + FirstNew(q.columns, QuoteFields(Keys(kw)))
    ensures r.Ok? && Distinct(q.columns + QuoteFields(Keys(kw))) ==> r.value.columns == q.columns + QuoteFields(Keys(kw))
  {
    var q :- Accept(q, VALUES);
    Ok(q.(params := q.params + ArgValues(kw), columns := MergeColumns(q.columns, QuoteFields(Keys(kw)))))
  }

  function Where(q: Query, kw: Kwargs): (r: Result<Query>)
    ensures WHERE !in q.declared ==> r == Err(NotValid(WHERE))
    ensures WHERE in q.declared ==> (r.Ok? <==> ParseQargs(kw).Ok?)
    ensures r.Ok? ==>
      var p := ParseQargs(kw).value;
      && r.value.params == q.params + p.values
      && r.value.groups == q.groups + [p.terms]
      && r.value.(params := q.params, groups := q.groups) == q
  {
    var q :- Accept(q, WHERE);
    var p :- ParseQargs(kw);
    Ok(q.(params := q.params + p.values, groups := q.groups + [p.terms]))
  }

  /** `or_` is `where`: the OR comes from rendering one group per call. */
  function Or(q: Query, kw: Kwargs): Result<Query> {
    Where(q, kw)
  }

  // ---------------------------------------------------------------------------
  // __str__
  // ---------------------------------------------------------------------------

  function Repeat(s: string, n: nat): (r: seq<string>)
    ensures |r| == n && forall i | 0 <= i < n :: r[i] == s
  {
    if n == 0 then [] else [s] + Repeat(s, n - 1)
  }

  function ValuesText(columns: seq<string>): string {
    if |columns| == 0 then ""
    else " (" + Join(", ", columns) + ") VALUES (" + Join(", ", Repeat("%s", |columns|)) + ")"
  }

  function SetText(assignments: seq<string>): string {
    if |assignments| == 0 then "" else " SET " + Join(", ", assignments)
  }

  /** A group of more than one term is parenthesised and AND-joined; a single term stands bare. */
  function GroupText(terms: seq<string>): Result<string> {
    if |terms| > 1 then Ok("(" + Join(" AND ", terms) + ")")
    else if |terms| == 1 then Ok(terms[0])
    else Err(IndexError("tuple index out of range"))
  }

  function GroupTexts(groups: seq<seq<string>>): (r: Result<seq<string>>)
    ensures r.Ok? ==> |r.value| == |groups|
    ensures r.Ok? ==> forall i | 0 <= i < |groups| :: GroupText(groups[i]) == Ok(r.value[i])
    ensures r.Err? <==> exists i | 0 <= i < |groups| :: groups[i] == []
  {
    if |groups| == 0 then Ok([])
    else
      match GroupText(groups[0])
      case Err(e) => Err(e)
      case Ok(head) =>
        match GroupTexts(groups[1..])
        case Err(e) =>
          assert forall i | 0 < i < |groups| :: groups[1..][i - 1] == groups[i];
          Err(e)
        case Ok(tail) =>
          assert forall i | 0 < i < |groups| :: groups[1..][i - 1] == groups[i];
          Ok([head] + tail)
  }

  function WhereText(groups: seq<seq<string>>): Result<string> {
    if |groups| == 0 then Ok("")
    else
      var texts :- GroupTexts(groups);
      Ok(" WHERE " + Join(" OR ", texts))
  }

  function OrderByText(items: seq<string>): string {
    if |items| == 0 then "" else " ORDER BY " + Join(", ", items)
  }

  function LimitText(limit: Option<int>): string {
    match limit
    case None => ""
    case Some(n) => " LIMIT " + IntToString(n)
  }

  function ReturningText(columns: seq<string>): string {
    if |columns| == 0 then "" else " RETURNING " + Join(", ", columns)
  }

  /** `str(query)`: the base text, then VALUES, SET, WHERE, ORDER BY, LIMIT and
      RETURNING, each only when non-empty. A WHERE group without terms fails
      with the `IndexError` of `terms[0]`. */
  function Render(q: Query): (r: Result<string>)
    ensures r.Err? <==> exists i | 0 <= i < |q.groups| :: q.groups[i] == []
    ensures r.Ok? ==> q.base <= r.value
  {
    var where :- WhereText(q.groups);
    Ok(q.base + ValuesText(q.columns) + SetText(q.assignments) + where
       + OrderByText(q.orderBy) + LimitText(q.limit) + ReturningText(q.returning))
  }
}
