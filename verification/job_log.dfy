/** The job log of `aapi_versioned/sync_log.py`: a `sync_log` table with one
    row per synchronisation run. `start` appends a row and returns its id;
    `status` rewrites columns of the row with that id; no operation removes a row.
 */
module JobLog {

  import opened Results
  import opened Datum
  import opened Text
  import opened QueryBuilder
  import opened RowFilter
  import Ordering
  import QueryBalance
  import QueryProperties

  /** `LogItem`. `created`/`deleted` default to 0; the other optional columns default to NULL. */
  datatype LogItem = LogItem(
    id: int,
    target: string,
    status: string,
    error: Option<string>,
    created: int,
    deleted: int,
    started: Option<int>,
    finished: Option<int>)

  /** The `sync_log` table: whether it exists, its rows and the next SERIAL id. */
  datatype Log = Log(present: bool, items: seq<LogItem>, nextId: int)

  const TableName: string := "sync_log"

  /** `SyncLog.fields`: the `LogItem` fields in declaration order. */
  const LogFields: seq<string> := ["id", "target", "status", "error", "created", "deleted", "started", "finished"]

  /** `LogItem.fields_sql()` */
  const FieldsSql: seq<(string, string)> := [
    ("id", "SERIAL PRIMARY KEY"),
    ("target", "TEXT NOT NULL"),
    ("status", "TEXT NOT NULL"),
    ("error", "TEXT"),
    ("created", "INTEGER DEFAULT 0"),
    ("deleted", "INTEGER DEFAULT 0"),
    ("started", "TIMESTAMP WITHOUT TIME ZONE"),
    ("finished", "TIMESTAMP WITHOUT TIME ZONE")]

  /** Ids are unique and below the sequence; a table that was never created is empty. */
  predicate Valid(log: Log) {
    && (!log.present ==> log.items == [])
    && (forall i | 0 <= i < |log.items| :: log.items[i].id < log.nextId)
    && (forall i, j | 0 <= i < j < |log.items| :: log.items[i].id != log.items[j].id)
  }

  function NoLogTable(): Error {
    DbError("relation \"" + TableName + "\" does not exist")
  }

  function Stamps(t: Option<int>): Value {
    match t
    case None => Null
    case Some(s) => Stamp(s)
  }

  /** The value of a column of a log row. */
  function Cell(item: LogItem, column: string): Value {
    if column == "id" then Int(item.id)
    else if column == "target" then Str(item.target)
    else if column == "status" then Str(item.status)
    else if column == "error" then (match item.error case None => Null case Some(e) => Str(e))
    else if column == "created" then Int(item.created)
    else if column == "deleted" then Int(item.deleted)
    else if column == "started" then Stamps(item.started)
    else if column == "finished" then Stamps(item.finished)
    else Null
  }

  /** A log row as the database evaluates it. */
  function LogRow(item: LogItem): Row {
    map c | c in LogFields :: Cell(item, c)
  }

  /** The tuple `SELECT <fields>` yields for a log row. */
  function LogTuple(item: LogItem): (r: seq<Value>)
    ensures |r| == |LogFields| && forall k | 0 <= k < |LogFields| :: r[k] == Cell(item, LogFields[k])
  {
    [Cell(item, "id"), Cell(item, "target"), Cell(item, "status"), Cell(item, "error"),
     Cell(item, "created"), Cell(item, "deleted"), Cell(item, "started"), Cell(item, "finished")]
  }

  /** What the column types guarantee of a selected tuple. */
  predicate IsLogTuple(row: seq<Value>) {
    && |row| == 8 && row[0].Int? && row[1].Str? && row[2].Str?
    && (row[3].Null? || row[3].Str?) && row[4].Int? && row[5].Int?
    && (row[6].Null? || row[6].Stamp?) && (row[7].Null? || row[7].Stamp?)
  }

  /** `LogItem(*row)` */
  function FromTuple(row: seq<Value>): LogItem
    requires IsLogTuple(row)
  {
    LogItem(row[0].i, row[1].s, row[2].s, if row[3].Null? then None else Some(row[3].s), row[4].i, row[5].i,
            if row[6].Null? then None else Some(row[6].t), if row[7].Null? then None else Some(row[7].t))
  }

  /** `LogItem(*row)` reads back exactly the stored row. */
  lemma FromTupleRoundTrip(item: LogItem)
    ensures IsLogTuple(LogTuple(item)) && FromTuple(LogTuple(item)) == item
  {
  }

  // ---------------------------------------------------------------------------
  // create_table
  // ---------------------------------------------------------------------------

  function CreateTableQuery(): Query {
    CreateTable(TableName, FieldsSql)
  }

  /** `SyncLog.create_table`: `CREATE TABLE IF NOT EXISTS` keeps an existing log as it is. */
  function CreateLogTable(log: Log): (r: Log)
    ensures r.present && r.items == log.items && r.nextId == log.nextId
  {
    Log(true, log.items, log.nextId)
  }

  /** The log table has one column per `LogItem` field in field order, with
      `created`/`deleted` defaulting to 0, and is only created when missing. */
  lemma LogTableDefinition()
    ensures |FieldsSql| == |LogFields| && forall k | 0 <= k < |LogFields| :: FieldsSql[k].0 == LogFields[k]
    ensures CreateTableQuery().base == "CREATE TABLE IF NOT EXISTS " + TableName + " (" + Join(", ", ColumnDefs(FieldsSql)) + ")"
    ensures FieldsSql[4] == ("created", "INTEGER DEFAULT 0") && FieldsSql[5] == ("deleted", "INTEGER DEFAULT 0")
    ensures CreateTableQuery().declared == {}
  {
  }

  // ---------------------------------------------------------------------------
  // start
  // ---------------------------------------------------------------------------

  function StartKwargs(target: string, started: int): Kwargs {
    [("target", Str(target)), ("status", Str("start")), ("started", Stamp(started))]
  }

  /** `insert(sync_log).values(target=…, status='start', started=…).returning('id')` */
  function StartQuery(target: string, started: int): Result<Query> {
    var q :- Values(Insert(TableName), StartKwargs(target, started));
    Returning(q, ["id"])
  }

  /** Different field names stay different once quoted. */
  lemma QuoteInjective(a: string, b: string)
    requires a != b
    ensures Quote(a) != Quote(b)
  {
  }

  /** `quote_fields` of three names. */
  lemma QuoteThree(a: string, b: string, c: string)
    ensures QuoteFields([a, b, c]) == [Quote(a), Quote(b), Quote(c)]
  {
    assert [a, b, c][1..] == [b, c];
    assert [b, c][1..] == [c];
    assert QuoteFields([c]) == [Quote(c)];
    assert QuoteFields([b, c]) == [Quote(b)] + QuoteFields([c]);
  }

  /** Three distinct names quote to three distinct columns. */
  lemma DistinctThree(a: string, b: string, c: string)
    requires a != b && b != c && a != c
    ensures Distinct([Quote(a), Quote(b), Quote(c)])
  {
  }

  /** The keys and values of three keyword arguments, in call order. */
  lemma KwargsThree(a: string, b: string, c: string, x: Value, y: Value, z: Value)
    ensures Keys([(a, x), (b, y), (c, z)]) == [a, b, c]
    ensures ArgValues([(a, x), (b, y), (c, z)]) == [x, y, z]
  {
  }

  /** Three new distinct columns are appended in keyword order. */
  lemma MergeThree(a: string, b: string, c: string, x: Value, y: Value, z: Value)
    requires a != b && b != c && a != c
    ensures MergeColumns([], QuoteFields(Keys([(a, x), (b, y), (c, z)]))) == [Quote(a), Quote(b), Quote(c)]
    ensures ArgValues([(a, x), (b, y), (c, z)]) == [x, y, z]
  {
    var cols := [Quote(a), Quote(b), Quote(c)];
    KwargsThree(a, b, c, x, y, z);
    QuoteThree(a, b, c);
    DistinctThree(a, b, c);
    assert [] + cols == cols;
  }

  /** `insert(table).values(a=x, b=y, c=z)` as a value. */
  lemma InsertValues(table: string, a: string, b: string, c: string, x: Value, y: Value, z: Value)
    requires a != b && b != c && a != c
    ensures Values(Insert(table), [(a, x), (b, y), (c, z)])
         == Ok(Query("INSERT INTO " + table, [x, y, z], {VALUES, RETURNING}, [Quote(a), Quote(b), Quote(c)], [], [], [], None, []))
  {
    var kw := [(a, x), (b, y), (c, z)];
    ValuesOfBlank(Insert(table), kw);
    MergeThree(a, b, c, x, y, z);
  }

  /** `values(**kw)` on a query with no parameters or columns yet. */
  lemma ValuesOfBlank(q: Query, kw: Kwargs)
    requires VALUES in q.declared && q.params == [] && q.columns == []
    ensures Values(q, kw) == Ok(q.(params := ArgValues(kw), columns := MergeColumns([], QuoteFields(Keys(kw)))))
  {
    assert q.params + ArgValues(kw) == ArgValues(kw);
  }

  /** An INSERT of three columns with a RETURNING clause. */
  lemma RenderInsert(q: Query, a: string, b: string, c: string, ret: string)
    requires q.columns == [a, b, c] && q.assignments == [] && q.groups == []
    requires q.orderBy == [] && q.limit == None && q.returning == [ret]
    ensures Render(q) == Ok(q.base + (" (" + (a + ", " + b + ", " + c) + ") VALUES (" + ("%s" + ", " + "%s" + ", " + "%s") + ")")
                            + (" RETURNING " + ret))
  {
    var cols := [a, b, c];
    assert Join(", ", cols) == a + ", " + b + ", " + c by {
      assert cols[1..] == [b, c];
      assert [b, c][1..] == [c];
      assert Join(", ", [b, c]) == b + ", " + c;
      assert Join(", ", cols) == a + ", " + Join(", ", [b, c]);
    }
    var holes := Repeat("%s", 3);
    assert Join(", ", holes) == "%s" + ", " + "%s" + ", " + "%s" by {
      assert holes == ["%s", "%s", "%s"];
      assert holes[1..] == ["%s", "%s"];
      assert holes[1..][1..] == ["%s"];
    }
    assert Join(", ", [ret]) == ret;
    assert ValuesText(cols) == " (" + (a + ", " + b + ", " + c) + ") VALUES (" + ("%s" + ", " + "%s" + ", " + "%s") + ")";
    var vt := ValuesText(cols);
    var rt := ReturningText([ret]);
    assert rt == " RETURNING " + ret;
    assert Render(q) == Ok(q.base + vt + "" + "" + "" + "" + rt);
    assert q.base + vt + "" + "" + "" + "" + rt == q.base + vt + rt;
  }

  /** `insert(table).values(a=x, b=y, c=z).returning(ret)` for three distinct fields. */
  lemma InsertThree(table: string, a: string, b: string, c: string, x: Value, y: Value, z: Value, ret: string)
    requires a != b && b != c && a != c
    ensures
      var q1 := Values(Insert(table), [(a, x), (b, y), (c, z)]);
      && q1.Ok?
      && Returning(q1.value, [ret]).Ok?
      && Returning(q1.value, [ret]).value.params == [x, y, z]
      && Render(Returning(q1.value, [ret]).value)
         == Ok("INSERT INTO " + table + (" (" + (Quote(a) + ", " + Quote(b) + ", " + Quote(c))
               + ") VALUES (" + ("%s" + ", " + "%s" + ", " + "%s") + ")") + (" RETURNING " + ret))
  {
    InsertValues(table, a, b, c, x, y, z);
    var q1 := Values(Insert(table), [(a, x), (b, y), (c, z)]).value;
    var q := Returning(q1, [ret]).value;
    assert q == q1.(returning := [ret]);
    RenderInsert(q, Quote(a), Quote(b), Quote(c), ret);
  }

  /** The statement `start` sends and its parameters: the three values in keyword order. */
  lemma StartStatement(target: string, started: int)
    ensures StartQuery(target, started).Ok?
    ensures StartQuery(target, started).value.params == [Str(target), Str("start"), Stamp(started)]
    ensures Render(StartQuery(target, started).value)
         == Ok("INSERT INTO " + TableName
               + (" (" + (Quote("target") + ", " + Quote("status") + ", " + Quote("started"))
                  + ") VALUES (" + ("%s" + ", " + "%s" + ", " + "%s") + ")")
               + (" RETURNING " + "id"))
  {
    assert "target"[0] != "status"[0] && "target"[0] != "started"[0];
    assert |"status"| != |"started"|;
    InsertThree(TableName, "target", "status", "started", Str(target), Str("start"), Stamp(started), "id");
  }

  /** `SyncLog.start`: appends one row with status `start`, the target and the
      start time, and returns the id the database gave it. */
  function Start(log: Log, target: string, started: int): (r: Result<(Log, int)>)
    ensures r.Ok? <==> log.present
    ensures r.Ok? ==> r.value.0.items == log.items + [LogItem(r.value.1, target, "start", None, 0, 0, Some(started), None)]
    ensures r.Ok? ==> r.value.1 == log.nextId && r.value.0.nextId == log.nextId + 1 && r.value.0.present
  {
    // The statement always builds and renders: see StartStatement.
    if !log.present then Err(NoLogTable())
    else
      var item := LogItem(log.nextId, target, "start", None, 0, 0, Some(started), None);
      Ok((Log(true, log.items + [item], log.nextId + 1), item.id))
  }

  // ---------------------------------------------------------------------------
  // status
  // ---------------------------------------------------------------------------

  /** Whether a value can be stored in a column of the log, by the column's SQL type. */
  predicate Settable(column: string, v: Value) {
    || (column in {"id", "created", "deleted"} && v.Int?)
    || (column in {"target", "status", "error"} && v.Str?)
    || (column in {"started", "finished"} && v.Stamp?)
  }

  /** One `"column" = value` assignment applied to a row. */
  function Assign(item: LogItem, column: string, v: Value): (r: LogItem)
    requires Settable(column, v)
    ensures Cell(r, column) == v
    ensures forall c | c in LogFields && c != column :: Cell(r, c) == Cell(item, c)
  {
    if column == "id" then item.(id := v.i)
    else if column == "target" then item.(target := v.s)
    else if column == "status" then item.(status := v.s)
    else if column == "error" then item.(error := Some(v.s))
    else if column == "created" then item.(created := v.i)
    else if column == "deleted" then item.(deleted := v.i)
    else if column == "started" then item.(started := Some(v.t))
    else item.(finished := Some(v.t))
  }

  function SyntaxError(): Error {
    DbError("syntax error in SET list")
  }

  /** What the SET terms `parse_qargs` rendered mean: `"c" = %s` assigns; a key
      with an unknown suffix left no term; any other term (`IS NULL`, a
      comparison, `= ANY(%s)`) is not an assignment and the database rejects it. */
  function Assignments(kw: Kwargs): (r: Result<seq<(string, Value)>>)
    ensures r.Ok? ==> |r.value| <= |kw|
    ensures r.Ok? <==> forall i | 0 <= i < |kw| ::
      var (name, op) := SplitKey(kw[i].0);
      op.Ignored? || (op.Eq? && !kw[i].1.Null?)
  {
    if |kw| == 0 then Ok([])
    else
      var (name, op) := SplitKey(kw[0].0);
      assert forall i | 1 <= i < |kw| :: kw[1..][i - 1] == kw[i];
      match Assignments(kw[1..])
      case Err(e) => Err(e)
      case Ok(rest) =>
        if op.Ignored? then Ok(rest)
        else if op.Eq? && !kw[0].1.Null? then Ok([(name, kw[0].1)] + rest)
        else Err(SyntaxError())
  }

  /** Every assignment names a column of the log, stores a value of its type,
      and no column is assigned twice; otherwise the UPDATE fails. */
  predicate AcceptedAssignments(assigns: seq<(string, Value)>) {
    && (forall k | 0 <= k < |assigns| :: assigns[k].0 in LogFields && Settable(assigns[k].0, assigns[k].1))
    && Distinct(Keys(assigns))
  }

  function AssignAll(item: LogItem, assigns: seq<(string, Value)>): LogItem
    requires forall k | 0 <= k < |assigns| :: Settable(assigns[k].0, assigns[k].1)
    decreases |assigns|
  {
    if |assigns| == 0 then item
    else AssignAll(Assign(item, assigns[0].0, assigns[0].1), assigns[1..])
  }

  /** After the assignments every assigned column holds its value and every other column is unchanged. */
  lemma {:induction false} AssignAllCells(item: LogItem, assigns: seq<(string, Value)>)
    requires AcceptedAssignments(assigns)
    ensures forall k | 0 <= k < |assigns| :: Cell(AssignAll(item, assigns), assigns[k].0) == assigns[k].1
    ensures forall c | c in LogFields && c !in Keys(assigns) :: Cell(AssignAll(item, assigns), c) == Cell(item, c)
    decreases |assigns|
  {
    if |assigns| > 0 {
      var (c0, v0) := assigns[0];
      var next := Assign(item, c0, v0);
      var rest := assigns[1..];
      assert forall k | 0 <= k < |rest| :: rest[k] == assigns[k + 1];
      assert Keys(rest) == Keys(assigns)[1..];
      assert AcceptedAssignments(rest);
      AssignAllCells(next, rest);
      assert c0 !in Keys(rest) by {
        forall k | 0 <= k < |rest|
          ensures Keys(rest)[k] != c0
        {
          assert Keys(assigns)[k + 1] != Keys(assigns)[0];
        }
      }
    }
  }

  /** The named parameters of `status(self, job_id, status, **kwargs)`. */
  const StatusParameters: set<string> := {"self", "job_id", "status"}

  /** The first keyword, in call order, that repeats a named parameter of
      `status`: Python binds the keywords in order and raises at the first one
      already bound. */
  function Clash(kw: Kwargs): (r: Option<string>)
    ensures r.None? <==> forall i | 0 <= i < |kw| :: kw[i].0 !in StatusParameters
    ensures r.Some? ==> exists i | 0 <= i < |kw| ::
      && kw[i].0 == r.value && r.value in StatusParameters
      && forall j | 0 <= j < i :: kw[j].0 !in StatusParameters
  {
    if |kw| == 0 then None
    else if kw[0].0 in StatusParameters then
      assert kw[0].0 == kw[0].0;
      Some(kw[0].0)
    else
      var r := Clash(kw[1..]);
      assert forall i | 1 <= i < |kw| :: kw[1..][i - 1] == kw[i];
      if r.Some? then
        ClashShift(kw, r.value);
        r
      else r
  }

  /** The first clash of the tail, after a head that does not clash, is the first clash. */
  lemma ClashShift(kw: Kwargs, name: string)
    requires |kw| > 0 && kw[0].0 !in StatusParameters
    requires exists i | 0 <= i < |kw[1..]| ::
      && kw[1..][i].0 == name && name in StatusParameters
      && forall j | 0 <= j < i :: kw[1..][j].0 !in StatusParameters
    ensures exists i | 0 <= i < |kw| ::
      && kw[i].0 == name && name in StatusParameters
      && forall j | 0 <= j < i :: kw[j].0 !in StatusParameters
  {
  }

  /** `update(sync_log).set(status=status, **kwargs).where(id=job_id)` */
  function StatusQuery(jobId: int, status: string, kw: Kwargs): Result<Query> {
    var q :- Set(Update(TableName), [("status", Str(status))] + kw);
    Where(q, [("id", Int(jobId))])
  }

  /** Rows with the given id receive the assignments; every other row is kept. */
  function UpdateRows(items: seq<LogItem>, jobId: int, assigns: seq<(string, Value)>): (r: seq<LogItem>)
    requires forall k | 0 <= k < |assigns| :: Settable(assigns[k].0, assigns[k].1)
    ensures |r| == |items|
    ensures forall i | 0 <= i < |items| :: r[i] == if items[i].id == jobId then AssignAll(items[i], assigns) else items[i]
  {
    if |items| == 0 then []
    else [if items[0].id == jobId then AssignAll(items[0], assigns) else items[0]] + UpdateRows(items[1..], jobId, assigns)
  }

  /** `SyncLog.status(job_id, status, **kwargs)`. */
  function Status(log: Log, jobId: int, status: string, kw: Kwargs): (r: Result<Log>)
    ensures Clash(kw).Some? ==> r == Err(MultipleValues("SyncLog.status", Clash(kw).value))
    ensures r.Ok? ==> log.present && r.value.present && r.value.nextId == log.nextId
    ensures r.Ok? ==> |r.value.items| == |log.items|
    ensures r.Ok? ==> forall i | 0 <= i < |log.items| && log.items[i].id != jobId :: r.value.items[i] == log.items[i]
  {
    match Clash(kw)
    case Some(name) => Err(MultipleValues("SyncLog.status", name))
    case None =>
      var q :- StatusQuery(jobId, status, kw);
      var text :- Render(q);
      if !log.present then Err(NoLogTable())
      else
        var assigns :- Assignments([("status", Str(status))] + kw);
        if !AcceptedAssignments(assigns) then Err(DbError("invalid assignment in UPDATE " + TableName))
        else Ok(Log(true, UpdateRows(log.items, jobId, assigns), log.nextId))
  }

  /** The one row whose id is `job_id` gets the new status and every keyword
      column; its other columns are kept. */
  lemma StatusUpdatesOneRow(log: Log, jobId: int, status: string, kw: Kwargs, i: int)
    requires Status(log, jobId, status, kw).Ok? && 0 <= i < |log.items| && log.items[i].id == jobId
    ensures
      var assigns := Assignments([("status", Str(status))] + kw).value;
      var after := Status(log, jobId, status, kw).value.items[i];
      && (forall k | 0 <= k < |assigns| :: Cell(after, assigns[k].0) == assigns[k].1)
      && Cell(after, "status") == Str(status)
      && (forall c | c in LogFields && c !in Keys(assigns) :: Cell(after, c) == Cell(log.items[i], c))
  {
    var assigns := Assignments([("status", Str(status))] + kw).value;
    StatusRows(log, jobId, status, kw);
    AssignAllCells(log.items[i], assigns);
    StatusFirstAssignment(status, kw);
  }

  /** The `status` keyword comes first, so it is the first assignment. */
  lemma StatusFirstAssignment(status: string, kw: Kwargs)
    requires Assignments([("status", Str(status))] + kw).Ok?
    ensures
      var assigns := Assignments([("status", Str(status))] + kw).value;
      |assigns| > 0 && assigns[0] == ("status", Str(status))
  {
  }

  /** `update(table).set(name=v, **kw)` as a value. */
  lemma SetValue(table: string, name: string, v: Value, kw: Kwargs)
    requires QueryProperties.PlainName(name) && !v.Null? && ParseQargs(kw).Ok?
    ensures Set(Update(table), [(name, v)] + kw)
         == Ok(Query("UPDATE " + table, [v] + ParseQargs(kw).value.values, {SET, WHERE, RETURNING},
                     [], [Quote(name) + " = %s"] + ParseQargs(kw).value.terms, [], [], None, []))
  {
    QueryProperties.PlainKeyIsEquality(name, v);
    QueryProperties.ParseQargsCons(name, v, kw);
    var r := Set(Update(table), [(name, v)] + kw);
    assert SET in Update(table).declared;
    assert ParseQargs([(name, v)] + kw).Ok?;
    assert r.Ok?;
    assert ParseQargs([(name, v)] + kw).value.values == [v] + ParseQargs(kw).value.values;
    assert r.value.params == [] + ([v] + ParseQargs(kw).value.values);
    assert r.value.assignments == [] + ([Quote(name) + " = %s"] + ParseQargs(kw).value.terms);
    assert Update(table) == Query("UPDATE " + table, [], {SET, WHERE, RETURNING}, [], [], [], [], None, []);
    var u := r.value;
    assert u.(params := [], assignments := []) == Update(table);
    assert u.base == "UPDATE " + table && u.declared == {SET, WHERE, RETURNING};
    assert u.columns == [] && u.groups == [] && u.orderBy == [] && u.limit == None && u.returning == [];
    assert u.params == [v] + ParseQargs(kw).value.values;
    assert u.assignments == [Quote(name) + " = %s"] + ParseQargs(kw).value.terms;
    assert u == Query("UPDATE " + table, [v] + ParseQargs(kw).value.values, {SET, WHERE, RETURNING},
                     [], [Quote(name) + " = %s"] + ParseQargs(kw).value.terms, [], [], None, []);
  }

  /** `update(table).set(name=v, **kw).where(key=id)` for plain names and non-NULL values. */
  lemma SetWhereStatement(table: string, name: string, v: Value, kw: Kwargs, key: string, id: Value)
    requires QueryProperties.PlainName(name) && QueryProperties.PlainName(key) && !v.Null? && !id.Null?
    requires ParseQargs(kw).Ok?
    ensures
      var q := Set(Update(table), [(name, v)] + kw).value;
      var p := ParseQargs(kw).value;
      && Set(Update(table), [(name, v)] + kw).Ok?
      && Where(q, [(key, id)]).Ok?
      && Where(q, [(key, id)]).value.params == [v] + p.values + [id]
      && Render(Where(q, [(key, id)]).value)
         == Ok("UPDATE " + table + SetText([Quote(name) + " = %s"] + p.terms) + (" WHERE " + (Quote(key) + " = %s")))
  {
    SetValue(table, name, v, kw);
    var q1 := Set(Update(table), [(name, v)] + kw).value;
    QueryProperties.WhereEquality(q1, key, id);
    var q := Where(q1, [(key, id)]).value;
    assert q.groups == [] + [[Quote(key) + " = %s"]];
    QueryProperties.RenderSetWhereOne(q, Quote(key) + " = %s");
  }

  /** The parameters of `status` follow placeholder order: the status, the
      keyword values, then the job id of the WHERE clause. */
  lemma StatusStatement(jobId: int, status: string, kw: Kwargs)
    requires ParseQargs(kw).Ok?
    ensures StatusQuery(jobId, status, kw).Ok?
    ensures StatusQuery(jobId, status, kw).value.params == [Str(status)] + ParseQargs(kw).value.values + [Int(jobId)]
    ensures Render(StatusQuery(jobId, status, kw).value)
         == Ok("UPDATE " + TableName + SetText([Quote("status") + " = %s"] + ParseQargs(kw).value.terms)
               + (" WHERE " + (Quote("id") + " = %s")))
  {
    PlainLogKeys();
    SetWhereStatement(TableName, "status", Str(status), kw, "id", Int(jobId));
  }

  /** Step fact: the log's own keys carry no operator suffix. */
  lemma PlainLogKeys()
    ensures QueryProperties.PlainName("status") && QueryProperties.PlainName("id")
    ensures SplitKey("status") == ("status", Eq)
  {
  }

  /** `status` neither adds nor removes rows and keeps every id unless `id` itself is assigned. */
  lemma StatusKeepsIds(log: Log, jobId: int, status: string, kw: Kwargs)
    requires Status(log, jobId, status, kw).Ok?
    requires "id" !in Keys(Assignments([("status", Str(status))] + kw).value)
    ensures forall i | 0 <= i < |log.items| :: Status(log, jobId, status, kw).value.items[i].id == log.items[i].id
  {
    var assigns := Assignments([("status", Str(status))] + kw).value;
    StatusRows(log, jobId, status, kw);
    forall i | 0 <= i < |log.items| && log.items[i].id == jobId
      ensures AssignAll(log.items[i], assigns).id == log.items[i].id
    {
      AssignKeepsId(log.items[i], assigns);
    }
  }

  /** A `status` that succeeds updates the rows by its accepted assignments. */
  lemma StatusRows(log: Log, jobId: int, status: string, kw: Kwargs)
    requires Status(log, jobId, status, kw).Ok?
    ensures Assignments([("status", Str(status))] + kw).Ok?
    ensures AcceptedAssignments(Assignments([("status", Str(status))] + kw).value)
    ensures Status(log, jobId, status, kw).value.items
         == UpdateRows(log.items, jobId, Assignments([("status", Str(status))] + kw).value)
  {
  }

  /** Assignments that leave `id` out keep the row's id. */
  lemma AssignKeepsId(item: LogItem, assigns: seq<(string, Value)>)
    requires AcceptedAssignments(assigns) && "id" !in Keys(assigns)
    ensures AssignAll(item, assigns).id == item.id
  {
    AssignAllCells(item, assigns);
    assert Cell(AssignAll(item, assigns), "id") == Cell(item, "id");
  }

  /** The columns `status` may be given as keywords besides `status` itself: every
      column but `id`. */
  const ProgressColumns: set<string> := {"target", "error", "created", "deleted", "started", "finished"}

  /** Keyword arguments that each assign one of those columns a value of its
      type, no column twice: the shape of every `status` call of a pull. */
  predicate ProgressUpdate(kw: Kwargs) {
    && (forall i | 0 <= i < |kw| :: kw[i].0 in ProgressColumns && Settable(kw[i].0, kw[i].1))
    && Distinct(Keys(kw))
  }

  /** The keyword sets `pull` passes: a count, the finish time, the error. */
  lemma ProgressShapes(n: int, t: int, e: string)
    ensures ProgressUpdate([]) && ProgressUpdate([("created", Int(n))]) && ProgressUpdate([("deleted", Int(n))])
    ensures ProgressUpdate([("finished", Stamp(t))]) && ProgressUpdate([("finished", Stamp(t)), ("error", Str(e))])
  {
  }

  /** None of the progress columns carries an operator suffix. */
  lemma ProgressKeys(c: string)
    requires c in ProgressColumns
    ensures SplitKey(c) == (c, Eq) && QueryProperties.PlainName(c)
    ensures c !in StatusParameters && c != "id"
  {
    if c == "target" { RSplitOfPlain("target"); }
    else if c == "error" { RSplitOfPlain("error"); }
    else if c == "created" { RSplitOfPlain("created"); }
    else if c == "deleted" { RSplitOfPlain("deleted"); }
    else if c == "started" { RSplitOfPlain("started"); }
    else { RSplitOfPlain("finished"); }
  }

  /** Plain keywords with values are taken as they are, in order. */
  lemma {:induction false} AssignmentsOfPlain(kw: Kwargs)
    requires forall i | 0 <= i < |kw| :: SplitKey(kw[i].0) == (kw[i].0, Eq) && !kw[i].1.Null?
    ensures Assignments(kw) == Ok(kw)
    decreases |kw|
  {
    if |kw| > 0 {
      assert forall i | 0 <= i < |kw| - 1 :: kw[1..][i] == kw[i + 1];
      AssignmentsOfPlain(kw[1..]);
      assert [(kw[0].0, kw[0].1)] + kw[1..] == kw;
    }
  }

  /** Progress keywords name no parameter of `status` and render as plain assignments. */
  lemma ProgressParses(kw: Kwargs)
    requires ProgressUpdate(kw)
    ensures Clash(kw) == None && ParseQargs(kw).Ok?
    ensures forall i | 0 <= i < |kw| :: SplitKey(kw[i].0) == (kw[i].0, Eq) && kw[i].0 != "status"
  {
    forall i | 0 <= i < |kw|
      ensures SplitKey(kw[i].0) == (kw[i].0, Eq) && kw[i].0 !in StatusParameters
    {
      ProgressKeys(kw[i].0);
    }
    PlainParses(kw);
  }

  /** Step fact: keywords without operator suffixes always parse. */
  lemma PlainParses(kw: Kwargs)
    requires forall i | 0 <= i < |kw| :: SplitKey(kw[i].0) == (kw[i].0, Eq)
    ensures ParseQargs(kw).Ok?
  {
  }

  /** With progress keywords the status comes first and every keyword follows as it is. */
  lemma ProgressAssignments(status: string, kw: Kwargs)
    requires ProgressUpdate(kw)
    ensures Assignments([("status", Str(status))] + kw) == Ok([("status", Str(status))] + kw)
    ensures AcceptedAssignments([("status", Str(status))] + kw)
    ensures "id" !in Keys([("status", Str(status))] + kw)
  {
    FullPlain(status, kw);
    AssignmentsOfPlain([("status", Str(status))] + kw);
    FullAccepted(status, kw);
  }

  /** Every keyword of `status=..., **kw` is a plain column with a value. */
  lemma FullPlain(status: string, kw: Kwargs)
    requires ProgressUpdate(kw)
    ensures var full := [("status", Str(status))] + kw;
      forall i | 0 <= i < |full| :: SplitKey(full[i].0) == (full[i].0, Eq) && !full[i].1.Null?
  {
    var full := [("status", Str(status))] + kw;
    PlainLogKeys();
    ProgressParses(kw);
    forall i | 0 <= i < |full|
      ensures SplitKey(full[i].0) == (full[i].0, Eq) && !full[i].1.Null?
    {
      if i > 0 {
        assert full[i] == kw[i - 1];
      }
    }
  }

  /** `status=..., **kw` assigns known columns, each once, and never `id`. */
  lemma FullAccepted(status: string, kw: Kwargs)
    requires ProgressUpdate(kw)
    ensures AcceptedAssignments([("status", Str(status))] + kw)
    ensures "id" !in Keys([("status", Str(status))] + kw)
  {
  }


  /** On an existing log, a `status` call with progress keywords succeeds: it
      assigns the status and exactly those keywords, and keeps every id. */
  lemma ProgressStatus(log: Log, jobId: int, status: string, kw: Kwargs)
    requires log.present && ProgressUpdate(kw)
    ensures Status(log, jobId, status, kw).Ok?
    ensures Assignments([("status", Str(status))] + kw) == Ok([("status", Str(status))] + kw)
    ensures forall i | 0 <= i < |log.items| :: Status(log, jobId, status, kw).value.items[i].id == log.items[i].id
  {
    ProgressParses(kw);
    StatusStatement(jobId, status, kw);
    ProgressAssignments(status, kw);
    StatusKeepsIds(log, jobId, status, kw);
  }

  /** The job's row after a progress update: the status and each keyword
      column take the given values and every other column is kept. */
  lemma ProgressRow(log: Log, jobId: int, status: string, kw: Kwargs, i: int)
    requires log.present && ProgressUpdate(kw) && 0 <= i < |log.items| && log.items[i].id == jobId
    ensures Status(log, jobId, status, kw).Ok?
    ensures
      var after := Status(log, jobId, status, kw).value.items[i];
      && after.status == status
      && (forall k | 0 <= k < |kw| :: Cell(after, kw[k].0) == kw[k].1)
      && (forall c | c in LogFields && c != "status" && c !in Keys(kw) :: Cell(after, c) == Cell(log.items[i], c))
  {
    ProgressStatus(log, jobId, status, kw);
    ProgressAssignments(status, kw);
    StatusUpdatesOneRow(log, jobId, status, kw, i);
    StatusThenKeywords(status, kw);
  }

  /** The assignments of `status=..., **kw` are the status followed by `kw`. */
  lemma StatusThenKeywords(status: string, kw: Kwargs)
    ensures forall k | 0 <= k < |kw| :: ([("status", Str(status))] + kw)[k + 1] == kw[k]
    ensures forall c | c != "status" && c !in Keys(kw) :: c !in Keys([("status", Str(status))] + kw)
  {
  }

  // ---------------------------------------------------------------------------
  // all, recent
  // ---------------------------------------------------------------------------

  /** The ORDER BY key of `all`: target, then id. */
  function TargetThenId(item: LogItem): seq<Value> {
    [Str(item.target), Int(item.id)]
  }

  /** `select(sync_log, fields).where(**params).order_by('target', 'id')` */
  function AllQuery(kw: Kwargs): Result<Query> {
    var q :- Where(Select(TableName, LogFields), kw);
    OrderBy(q, ["target", "id"])
  }

  /** `SyncLog.all(self, **params)`: the rows the conditions select, ordered by
      target and id. A `self` keyword repeats the bound instance. */
  function All(log: Log, kw: Kwargs): (r: Result<seq<LogItem>>)
    ensures "self" in Keys(kw) ==> r == Err(MultipleValues("SyncLog.all", "self"))
    ensures r.Ok? ==> log.present
    ensures r.Ok? ==> forall x :: x in r.value <==> x in log.items && GroupHolds(LogRow(x), kw)
    ensures r.Ok? ==> Ordering.SortedBy(r.value, TargetThenId)
    ensures r.Ok? ==>
      multiset(r.value) == multiset(Keep(log.items, (x: LogItem) => GroupHolds(LogRow(x), kw)))
  {
    if "self" in Keys(kw) then Err(MultipleValues("SyncLog.all", "self"))
    else
      var q :- AllQuery(kw);
      var text :- Render(q);
      if !log.present then Err(NoLogTable())
      else if !KnownColumns(ColumnNames(), [kw]) then Err(DbError("column does not exist"))
      else
        // The rows come back as tuples that `LogItem(*row)` reads back unchanged: see FromTupleRoundTrip.
        var hits := Keep(log.items, (x: LogItem) => GroupHolds(LogRow(x), kw));
        SortedHits(hits);
        Ok(Ordering.SortBy(hits, TargetThenId))
  }

  function ColumnNames(): set<string> {
    set c | c in LogFields
  }

  lemma SortedHits(hits: seq<LogItem>)
    ensures Ordering.SortedBy(Ordering.SortBy(hits, TargetThenId), TargetThenId)
    ensures forall x :: x in Ordering.SortBy(hits, TargetThenId) <==> x in hits
    ensures multiset(Ordering.SortBy(hits, TargetThenId)) == multiset(hits)
  {
    Ordering.SortByCorrect(hits, TargetThenId);
    forall x
      ensures x in Ordering.SortBy(hits, TargetThenId) <==> x in hits
    {
      Ordering.SortByMembers(hits, TargetThenId, x);
    }
  }

  const Day: int := 86_400_000_000

  /** `.replace(hour=0, minute=0, second=0, microsecond=0)` on a microsecond count. */
  function Midnight(t: int): (r: int)
    ensures r <= t < r + Day && r % Day == 0
  {
    t - t % Day
  }

  /** `SyncLog.recent()` with the clock reading `now` as a parameter: the jobs
      started at or after midnight thirty days before `now`. */
  function Recent(log: Log, now: int): (r: Result<seq<LogItem>>)
    ensures r.Ok? ==> forall x :: x in r.value <==> x in log.items && x.started.Some? && x.started.value >= Midnight(now - 30 * Day)
    ensures r.Ok? <==> log.present
  {
    var since := Midnight(now - 30 * Day);
    RecentSelects(log, since);
    All(log, [("started__gte", Stamp(since))])
  }

  /** `all(started__gte=since)` succeeds exactly on an existing log and returns
      the jobs of the log started at or after `since`. */
  lemma RecentSelects(log: Log, since: int)
    ensures var r := All(log, [("started__gte", Stamp(since))]);
      && (r.Ok? ==> forall x :: x in r.value <==> x in log.items && x.started.Some? && x.started.value >= since)
      && (r.Ok? <==> log.present)
  {
    assert Keys([("started__gte", Stamp(since))]) == ["started__gte"];
    RecentCondition(since);
    RecentStatement(since);
  }

  /** `started__gte=since` selects the jobs started at or after `since`; a job never started is not selected. */
  lemma RecentCondition(since: int)
    ensures forall x: LogItem :: GroupHolds(LogRow(x), [("started__gte", Stamp(since))]) <==> x.started.Some? && x.started.value >= since
    ensures KnownColumns(ColumnNames(), [[("started__gte", Stamp(since))]])
  {
    StartedKey();
    StartedHolds(since);
    StartedColumn(since);
  }

  lemma StartedHolds(since: int)
    requires SplitKey("started__gte") == ("started", Compare(">="))
    ensures forall x: LogItem :: GroupHolds(LogRow(x), [("started__gte", Stamp(since))]) <==> x.started.Some? && x.started.value >= since
  {
    var kw := [("started__gte", Stamp(since))];
    assert kw[0] == ("started__gte", Stamp(since));
  }

  lemma StartedKey()
    ensures SplitKey("started__gte") == ("started", Compare(">="))
  {
    QueryProperties.SuffixedKey("started", "gte", "started__gte");
  }

  /** Step fact: `started__gte` filters a known column. */
  lemma StartedColumn(since: int)
    requires SplitKey("started__gte") == ("started", Compare(">="))
    ensures KnownColumns(ColumnNames(), [[("started__gte", Stamp(since))]])
  {
  }

  /** `started__gte=since` renders as one comparison term binding `since`. */
  lemma RecentTerm(since: int)
    ensures ParseQargs([("started__gte", Stamp(since))]) == Ok(Parsed([Quote("started") + " >= %s"], [Stamp(since)]))
  {
    assert DecodeOp("gte") == Compare(">=");
    QueryProperties.ComparisonTerm("started", "gte", ">=", Stamp(since), "started__gte", " >= %s");
    QueryProperties.ParseQargsSingle("started__gte", Stamp(since));
  }

  /** `order_by('target', 'id')` renders both items. */
  lemma TargetIdOrder()
    ensures OrderItems(["target", "id"]) == Ok([Quote("target") + " ", Quote("id") + " "])
  {
    assert NoSpace("target") && NoSpace("id");
    QueryProperties.OrderItemForms("target", "id", "id");
    QueryProperties.OrderItemForms("id", "target", "target");
    QueryProperties.OrderItemsPair("target", "id", Quote("target") + " ", Quote("id") + " ");
  }

  /** A one-term `where` followed by `order_by` renders, whatever the SELECT. */
  lemma WhereOrderRenders(q0: Query, kw: Kwargs, term: string, v: Value, fields: seq<string>)
    requires {WHERE, ORDER_BY} <= q0.declared && q0.groups == []
    requires ParseQargs(kw) == Ok(Parsed([term], [v])) && OrderItems(fields).Ok?
    ensures Where(q0, kw).Ok? && OrderBy(Where(q0, kw).value, fields).Ok?
    ensures Render(OrderBy(Where(q0, kw).value, fields).value).Ok?
  {
  }

  /** The statement of `recent` always builds and renders. */
  lemma RecentStatement(since: int)
    ensures AllQuery([("started__gte", Stamp(since))]).Ok?
    ensures Render(AllQuery([("started__gte", Stamp(since))]).value).Ok?
  {
    RecentTerm(since);
    TargetIdOrder();
    var q0 := Select(TableName, LogFields);
    assert q0.declared == {WHERE, ORDER_BY, LIMIT} && q0.groups == [];
    WhereOrderRenders(q0, [("started__gte", Stamp(since))], Quote("started") + " >= %s", Stamp(since), ["target", "id"]);
  }

  // ---------------------------------------------------------------------------
  // Append-only
  // ---------------------------------------------------------------------------

  /** `later` keeps every row of `earlier` in place: rows are never removed or reordered. */
  predicate Extends(earlier: Log, later: Log) {
    |earlier.items| <= |later.items| && forall i | 0 <= i < |earlier.items| :: later.items[i].id == earlier.items[i].id
  }

  /** No log operation removes a row, and all of them keep the log valid. */
  lemma AppendOnly(log: Log, target: string, started: int, jobId: int, status: string, kw: Kwargs)
    requires Valid(log)
    ensures Extends(log, CreateLogTable(log)) && Valid(CreateLogTable(log))
    ensures Start(log, target, started).Ok? ==> Extends(log, Start(log, target, started).value.0) && Valid(Start(log, target, started).value.0)
    ensures Status(log, jobId, status, kw).Ok? && "id" !in Keys(Assignments([("status", Str(status))] + kw).value)
        ==> Extends(log, Status(log, jobId, status, kw).value) && Valid(Status(log, jobId, status, kw).value)
  {
    SameIdsValid(log, CreateLogTable(log));
    StartAppends(log, target, started);
    StatusAppends(log, jobId, status, kw);
  }

  /** `start` appends one row and keeps the log valid. */
  lemma StartAppends(log: Log, target: string, started: int)
    requires Valid(log)
    ensures Start(log, target, started).Ok? ==> Extends(log, Start(log, target, started).value.0) && Valid(Start(log, target, started).value.0)
  {
  }

  lemma StatusAppends(log: Log, jobId: int, status: string, kw: Kwargs)
    requires Valid(log)
    ensures Status(log, jobId, status, kw).Ok? && "id" !in Keys(Assignments([("status", Str(status))] + kw).value)
        ==> Extends(log, Status(log, jobId, status, kw).value) && Valid(Status(log, jobId, status, kw).value)
  {
    var r := Status(log, jobId, status, kw);
    if r.Ok? && "id" !in Keys(Assignments([("status", Str(status))] + kw).value) {
      StatusKeepsIds(log, jobId, status, kw);
      SameIdsValid(log, r.value);
    }
  }

  /** A log with the same ids in the same places, under the same sequence, stays valid. */
  lemma SameIdsValid(log: Log, after: Log)
    requires Valid(log) && after.present && after.nextId == log.nextId && |after.items| == |log.items|
    requires forall i | 0 <= i < |log.items| :: after.items[i].id == log.items[i].id
    ensures Extends(log, after) && Valid(after)
  {
  }

  /** Appending one row whose id is the sequence's next value, and advancing the sequence, keeps a log valid. */
  lemma AppendedValid(log: Log, after: Log)
    requires Valid(log) && after.present && after.nextId == log.nextId + 1 && |after.items| == |log.items| + 1
    requires forall i | 0 <= i < |log.items| :: after.items[i] == log.items[i]
    requires after.items[|log.items|].id == log.nextId
    ensures Extends(log, after) && Valid(after)
  {
  }
}
