/** The versioned table of `aapi_versioned/db.py`: an `Endpoint` keeps every
    version of every record as a row `(_id, _created, _deleted, *model fields)`.
    Rows are only ever appended (`add`) or stamped as deleted (`delete`); a row
    with a NULL `_deleted` is active.

    The database is modelled as the table value itself: a statement that fails
    leaves the previous value in place, which is what the rollback in
    `SimpleDatabase` achieves.
 */
module Store {

  import opened Results
  import opened Datum
  import opened Text
  import opened QueryBuilder
  import opened RowFilter
  import Ordering
  import QueryProperties

  /** One stored version of a record; timestamps are microsecond counts. */
  datatype Versioned = Versioned(id: int, created: int, deleted: Option<int>, data: seq<Value>)

  /** The annotation types of the models: the keys of `type_map`, and any other class. */
  datatype FieldType =
    | BoolType | DateType | DateTimeType | DateTimeTzType | FloatType | IntType
    | MultipolygonType | PointType | PolygonType | StrType | TimeType
    | OtherType(name: string)

  /** A model's `__annotations__`: field names with their types, in declaration order. */
  type Model = seq<(string, FieldType)>

  /** The table behind one endpoint. `present` says whether CREATE TABLE has run;
      `nextId` is the next value of the SERIAL sequence of `_id`. */
  datatype Table = Table(name: string, model: Model, present: bool, rows: seq<Versioned>, nextId: int)

  /** Every id is unique and below the sequence, every row has the model's width,
      and a table that was never created holds no rows. */
  predicate Valid(t: Table) {
    && (!t.present ==> t.rows == [])
    && (forall i | 0 <= i < |t.rows| :: t.rows[i].id < t.nextId && |t.rows[i].data| == |t.model|)
    && (forall i, j | 0 <= i < j < |t.rows| :: t.rows[i].id != t.rows[j].id)
  }

  function NoRelation(table: string): Error {
    DbError("relation \"" + table + "\" does not exist")
  }

  // ---------------------------------------------------------------------------
  // Columns
  // ---------------------------------------------------------------------------

  const VersionFields: seq<string> := ["_id", "_created", "_deleted"]

  /** `Endpoint.fields`: the version columns, then the model's fields in declaration order. */
  function Fields(m: Model): (r: seq<string>)
    ensures |r| == 3 + |m|
    ensures r[0] == "_id" && r[1] == "_created" && r[2] == "_deleted"
    ensures forall i | 0 <= i < |m| :: r[3 + i] == m[i].0
  {
    VersionFields + Keys(m)
  }

  function DeletedValue(d: Option<int>): Value {
    match d
    case None => Null
    case Some(t) => Stamp(t)
  }

  /** The tuple `SELECT <fields>` yields for a row. */
  function Columns(v: Versioned): seq<Value> {
    [Int(v.id), Stamp(v.created), DeletedValue(v.deleted)] + v.data
  }

  /** What the column types guarantee of a selected tuple. */
  predicate IsVersionedTuple(row: seq<Value>) {
    |row| >= 3 && row[0].Int? && row[1].Stamp? && (row[2].Null? || row[2].Stamp?)
  }

  /** `Versioned(row[0], row[1], row[2], model(*row[3:]))` */
  function Materialize(row: seq<Value>): Versioned
    requires IsVersionedTuple(row)
  {
    Versioned(row[0].i, row[1].t, if row[2].Null? then None else Some(row[2].t), row[3..])
  }

  /** Reading a row back through `all`/`one` gives the stored version unchanged. */
  lemma MaterializeColumns(v: Versioned)
    ensures IsVersionedTuple(Columns(v)) && Materialize(Columns(v)) == v
  {
    assert Columns(v)[3..] == v.data;
  }

  /** ...and a selected tuple is exactly the columns of the version built from it. */
  lemma ColumnsMaterialize(row: seq<Value>)
    requires IsVersionedTuple(row)
    ensures Columns(Materialize(row)) == row
  {
    assert row == row[..3] + row[3..];
  }

  function Tuples(vs: seq<Versioned>): (r: seq<seq<Value>>)
    ensures |r| == |vs| && forall i | 0 <= i < |vs| :: r[i] == Columns(vs[i])
  {
    if |vs| == 0 then [] else [Columns(vs[0])] + Tuples(vs[1..])
  }

  function MaterializeAll(rows: seq<seq<Value>>): (r: seq<Versioned>)
    requires forall i | 0 <= i < |rows| :: IsVersionedTuple(rows[i])
    ensures |r| == |rows| && forall i | 0 <= i < |rows| :: r[i] == Materialize(rows[i])
  {
    if |rows| == 0 then [] else [Materialize(rows[0])] + MaterializeAll(rows[1..])
  }

  lemma MaterializeAllTuples(vs: seq<Versioned>)
    ensures forall i | 0 <= i < |Tuples(vs)| :: IsVersionedTuple(Tuples(vs)[i])
    ensures MaterializeAll(Tuples(vs)) == vs
  {
    forall i | 0 <= i < |vs|
      ensures IsVersionedTuple(Tuples(vs)[i]) && Materialize(Tuples(vs)[i]) == vs[i]
    {
      MaterializeColumns(vs[i]);
    }
  }

  /** Field names paired with values; the first occurrence of a name wins. */
  function Zip(names: seq<string>, data: seq<Value>): (r: map<string, Value>)
    ensures forall c :: c in r <==> exists i | 0 <= i < |names| && i < |data| :: names[i] == c
    decreases |names|
  {
    if |names| == 0 || |data| == 0 then map[]
    else
      var rest := Zip(names[1..], data[1..]);
      assert forall i | 1 <= i < |names| && i < |data| :: names[1..][i - 1] == names[i];
      rest[names[0] := data[0]]
  }

  /** A row as the database evaluates it: every column by name. */
  function RowMap(m: Model, v: Versioned): Row {
    Zip(Keys(m), v.data)["_id" := Int(v.id)]["_created" := Stamp(v.created)]["_deleted" := DeletedValue(v.deleted)]
  }

  // ---------------------------------------------------------------------------
  // CREATE TABLE
  // ---------------------------------------------------------------------------

  /** `Endpoint.type_map`; a type outside it is the `KeyError` of the dict lookup. */
  function TypeMap(t: FieldType): (r: Result<string>)
    ensures r.Err? <==> t.OtherType?
    ensures r.Err? ==> r.error.KeyError?
  {
    match t
    case BoolType => Ok("BOOLEAN")
    case DateType => Ok("DATE")
    case DateTimeType => Ok("TIMESTAMP WITHOUT TIME ZONE")
    case DateTimeTzType => Ok("TIMESTAMP WITH TIME ZONE")
    case FloatType => Ok("DOUBLE PRECISION")
    case IntType => Ok("INTEGER")
    case MultipolygonType => Ok("TEXT")
    case PointType => Ok("POINT")
    case PolygonType => Ok("TEXT")
    case StrType => Ok("TEXT")
    case TimeType => Ok("TIME")
    case OtherType(n) => Err(KeyError("<class '" + n + "'>"))
  }

  const VersionDefs: seq<(string, string)> :=
    [("_id", "SERIAL PRIMARY KEY"), ("_created", "TIMESTAMP NOT NULL"), ("_deleted", "TIMESTAMP")]

  /** `{k: type_map[v] for k, v in annotations.items()}`: stops at the first unmapped type. */
  function ModelDefs(m: Model): (r: Result<seq<(string, string)>>)
    ensures r.Err? <==> exists i | 0 <= i < |m| :: m[i].1.OtherType?
    ensures r.Err? ==> r.error.KeyError?
    ensures r.Ok? ==> |r.value| == |m|
    ensures r.Ok? ==> forall i | 0 <= i < |m| :: TypeMap(m[i].1) == Ok(r.value[i].1) && r.value[i].0 == m[i].0
  {
    if |m| == 0 then Ok([])
    else
      match TypeMap(m[0].1)
      case Err(e) => Err(e)
      case Ok(sql) =>
        match ModelDefs(m[1..])
        case Err(e) =>
          assert forall i | 1 <= i < |m| :: m[1..][i - 1] == m[i];
          Err(e)
        case Ok(rest) =>
          assert forall i | 1 <= i < |m| :: m[1..][i - 1] == m[i];
          Ok([(m[0].0, sql)] + rest)
  }

  /** The first model field named like a version column: `dict()` rejects it as a repeated keyword. */
  function VersionClash(m: Model): (r: Option<string>)
    ensures r.None? <==> forall i | 0 <= i < |m| :: m[i].0 !in VersionFields
    ensures r.Some? ==> r.value in VersionFields
  {
    if |m| == 0 then None
    else if m[0].0 in VersionFields then Some(m[0].0)
    else
      var rest := VersionClash(m[1..]);
      assert forall i | 1 <= i < |m| :: m[1..][i - 1] == m[i];
      rest
  }

  /** `Endpoint.query_create_table`. The type lookups run first, so an unmapped
      type is a `KeyError` even when a field also clashes with a version column. */
  function QueryCreateTable(table: string, m: Model): (r: Result<Query>)
    ensures (exists i | 0 <= i < |m| :: m[i].1.OtherType?) ==> r.Err? && r.error.KeyError?
    ensures r.Ok? <==> (forall i | 0 <= i < |m| :: !m[i].1.OtherType? && m[i].0 !in VersionFields)
    ensures r.Ok? ==> r.value.declared == {} && r.value.params == []
  {
    var defs :- ModelDefs(m);
    match VersionClash(m)
    case Some(f) => Err(TypeError("dict() got multiple values for keyword argument '" + f + "'"))
    case None => Ok(CreateTable(table, VersionDefs + defs))
  }

  /** The definition lists the three version columns, then one column per model
      field in declaration order, typed through `type_map`. */
  lemma CreateTableColumns(table: string, m: Model)
    requires QueryCreateTable(table, m).Ok?
    ensures
      var defs := ColumnDefs(VersionDefs + ModelDefs(m).value);
      && QueryCreateTable(table, m).value.base == "CREATE TABLE IF NOT EXISTS " + table + " (" + Join(", ", defs) + ")"
      && |defs| == 3 + |m|
      && defs[0] == Quote("_id") + " SERIAL PRIMARY KEY"
      && defs[1] == Quote("_created") + " TIMESTAMP NOT NULL"
      && defs[2] == Quote("_deleted") + " TIMESTAMP"
      && forall i | 0 <= i < |m| :: defs[3 + i] == Quote(m[i].0) + " " + TypeMap(m[i].1).value
  {
    var md := ModelDefs(m).value;
    assert QueryCreateTable(table, m).value == CreateTable(table, VersionDefs + md);
    VersionColumnDefs(md);
  }

  /** The column definitions of the bookkeeping columns followed by those of the model. */
  lemma VersionColumnDefs(md: seq<(string, string)>)
    ensures
      var defs := ColumnDefs(VersionDefs + md);
      && |defs| == 3 + |md|
      && defs[0] == Quote("_id") + " SERIAL PRIMARY KEY"
      && defs[1] == Quote("_created") + " TIMESTAMP NOT NULL"
      && defs[2] == Quote("_deleted") + " TIMESTAMP"
      && forall i | 0 <= i < |md| :: defs[3 + i] == Quote(md[i].0) + " " + md[i].1
  {
    var all := VersionDefs + md;
    var defs := ColumnDefs(all);
    assert all[0] == ("_id", "SERIAL PRIMARY KEY") && all[1] == ("_created", "TIMESTAMP NOT NULL")
        && all[2] == ("_deleted", "TIMESTAMP");
    forall i | 0 <= i < |md|
      ensures defs[3 + i] == Quote(md[i].0) + " " + md[i].1
    {
      assert all[3 + i] == md[i];
    }
  }

  /** `Endpoint.create_table`: `CREATE TABLE IF NOT EXISTS` leaves an existing table as it is. */
  function EnsureTable(t: Table): (r: Result<Table>)
    ensures r.Ok? <==> QueryCreateTable(t.name, t.model).Ok?
    ensures r.Ok? ==> r.value.present && r.value.rows == t.rows && r.value.(present := t.present) == t
  {
    var q :- QueryCreateTable(t.name, t.model);
    Ok(t.(present := true))
  }

  // ---------------------------------------------------------------------------
  // add
  // ---------------------------------------------------------------------------

  /** The tuples `add` streams into COPY: `(created,) + item`. */
  function CopyRows(created: int, items: seq<seq<Value>>): (r: seq<seq<Value>>)
    ensures |r| == |items| && forall i | 0 <= i < |items| :: r[i] == [Stamp(created)] + items[i]
  {
    if |items| == 0 then [] else [[Stamp(created)] + items[0]] + CopyRows(created, items[1..])
  }

  /** How the database stores COPY tuples into `_created` and the model columns:
      `_id` is drawn from the sequence and `_deleted` takes its default NULL. */
  function Stored(nextId: int, rows: seq<seq<Value>>): (r: seq<Versioned>)
    requires forall i | 0 <= i < |rows| :: |rows[i]| > 0 && rows[i][0].Stamp?
    ensures |r| == |rows|
    ensures forall i | 0 <= i < |rows| :: r[i] == Versioned(nextId + i, rows[i][0].t, None, rows[i][1..])
    decreases |rows|
  {
    if |rows| == 0 then [] else [Versioned(nextId, rows[0][0].t, None, rows[0][1..])] + Stored(nextId + 1, rows[1..])
  }

  /** `Endpoint.add`: one new active row per item, in input order, all stamped
      `created`; nothing else in the table changes. A tuple of the wrong width
      fails the whole COPY. */
  /** From index `n` on, `rows` holds one new active row per item, with
      consecutive ids from `next` and creation time `created`. */
  predicate AppendedFrom(rows: seq<Versioned>, n: nat, next: int, created: int, items: seq<seq<Value>>) {
    n + |items| <= |rows| && forall i | 0 <= i < |items| :: rows[n + i] == Versioned(next + i, created, None, items[i])
  }

  function Add(t: Table, created: int, items: seq<seq<Value>>): (r: Result<Table>)
    ensures r.Ok? <==> t.present && forall i | 0 <= i < |items| :: |items[i]| == |t.model|
    ensures r.Ok? ==> |r.value.rows| == |t.rows| + |items| && r.value.rows[..|t.rows|] == t.rows
    ensures r.Ok? ==> forall i | 0 <= i < |items| ::
      r.value.rows[|t.rows| + i] == Versioned(t.nextId + i, created, None, items[i])
    ensures r.Ok? ==> r.value.nextId == t.nextId + |items| && r.value.(rows := t.rows, nextId := t.nextId) == t
  {
    var tuples := CopyRows(created, items);
    if !t.present then Err(NoRelation(t.name))
    else if exists i | 0 <= i < |items| :: |items[i]| != |t.model| then
      Err(DbError("COPY " + t.name + ": row width does not match the column list"))
    else
      var added := Stored(t.nextId, tuples);
      assert forall i | 0 <= i < |items| :: tuples[i][1..] == items[i];
      Ok(t.(rows := t.rows + added, nextId := t.nextId + |items|))
  }

  lemma AddKeepsValid(t: Table, created: int, items: seq<seq<Value>>)
    requires Valid(t) && Add(t, created, items).Ok?
    ensures Valid(Add(t, created, items).value)
  {
    var u := Add(t, created, items).value;
    forall i, j | 0 <= i < j < |u.rows|
      ensures u.rows[i].id != u.rows[j].id
    {
      if j >= |t.rows| && i < |t.rows| {
        assert u.rows[i] == t.rows[i];
      }
      if j < |t.rows| {
        assert u.rows[i] == t.rows[i] && u.rows[j] == t.rows[j];
      }
    }
    forall i | 0 <= i < |u.rows|
      ensures u.rows[i].id < u.nextId && |u.rows[i].data| == |u.model|
    {
      if i < |t.rows| {
        assert u.rows[i] == t.rows[i];
      }
    }
  }

  // ---------------------------------------------------------------------------
  // delete
  // ---------------------------------------------------------------------------

  function IntValues(ids: seq<int>): (r: seq<Value>)
    ensures |r| == |ids| && forall i | 0 <= i < |ids| :: r[i] == Int(ids[i])
  {
    if |ids| == 0 then [] else [Int(ids[0])] + IntValues(ids[1..])
  }

  /** The condition of `delete`: `_deleted=None, _id__in=record_ids`. */
  function DeleteCondition(ids: seq<int>): Kwargs {
    [("_deleted", Null), ("_id__in", Array(IntValues(ids)))]
  }

  /** `update(t).set(_deleted=deleted).where(_deleted=None, _id__in=record_ids)` */
  function DeleteQuery(table: string, deleted: int, ids: seq<int>): Result<Query> {
    var q :- Set(Update(table), [("_deleted", Stamp(deleted))]);
    Where(q, DeleteCondition(ids))
  }

  lemma PlainKeys()
    ensures SplitKey("_deleted") == ("_deleted", Eq)
    ensures SplitKey("_created") == ("_created", Eq)
    ensures SplitKey("_id__in") == ("_id", In)
  {
    RSplitOfPlain("_deleted");
    RSplitOfPlain("_created");
    RSplitOfSuffixed("_id", "in");
    assert "_id__in" == "_id" + "__" + "in";
  }

  /** `update(t).set(_deleted=deleted).where(_deleted=None, _id__in=record_ids)` as a value. */
  lemma DeleteQueryValue(table: string, deleted: int, ids: seq<int>)
    ensures DeleteQuery(table, deleted, ids)
         == Ok(Query("UPDATE " + table, [Stamp(deleted), Array(IntValues(ids))], {SET, WHERE, RETURNING},
                     [], [Quote("_deleted") + " = %s"],
                     [[Quote("_deleted") + " IS NULL", Quote("_id") + " = ANY(%s)"]], [], None, []))
  {
    PlainKeys();
    var assignment := Quote("_deleted") + " = %s";
    var isNull := Quote("_deleted") + " IS NULL";
    var anyOf := Quote("_id") + " = ANY(%s)";
    var items := Array(IntValues(ids));
    assert ParseArg("_deleted", Stamp(deleted)) == Ok(Parsed([assignment], [Stamp(deleted)]));
    assert ParseArg("_deleted", Null) == Ok(Parsed([isNull], []));
    assert ParseArg("_id__in", items) == Ok(Parsed([anyOf], [items]));
    var setKw := [("_deleted", Stamp(deleted))];
    QueryProperties.ParseQargsSingle("_deleted", Stamp(deleted));
    var whereKw := DeleteCondition(ids);
    assert ParseQargs(whereKw) == Ok(Parsed([isNull, anyOf], [items])) by {
      QueryProperties.ParseQargsSingle("_id__in", items);
      QueryProperties.ParseQargsCons("_deleted", Null, [("_id__in", items)]);
      assert [("_deleted", Null)] + [("_id__in", items)] == whereKw;
      assert [isNull] + [anyOf] == [isNull, anyOf];
      assert [] + [items] == [items];
    }
    var q1 := Set(Update(table), setKw).value;
    var q2 := Query("UPDATE " + table, [Stamp(deleted), items], {SET, WHERE, RETURNING}, [], [assignment], [[isNull, anyOf]], [], None, []);
    assert q1 == Query("UPDATE " + table, [Stamp(deleted)], {SET, WHERE, RETURNING}, [], [assignment], [], [], None, []);
    var w := Where(q1, whereKw);
    assert w.Ok? && w.value.params == [Stamp(deleted)] + [items] && w.value.groups == [] + [[isNull, anyOf]];
    assert w.value == q2;
  }

  /** An UPDATE with one assignment and one WHERE group of two terms. */
  lemma RenderSetWhere(q: Query, assignment: string, c1: string, c2: string)
    requires q.columns == [] && q.assignments == [assignment] && q.groups == [[c1, c2]]
    requires q.orderBy == [] && q.limit == None && q.returning == []
    ensures Render(q) == Ok(q.base + " SET " + assignment + " WHERE " + ("(" + c1 + " AND " + c2 + ")"))
  {
    var group := "(" + c1 + " AND " + c2 + ")";
    assert GroupText([c1, c2]) == Ok(group) by {
      assert Join(" AND ", [c1, c2]) == c1 + " AND " + c2 by {
        assert [c1, c2][1..] == [c2];
      }
      assert "(" + (c1 + " AND " + c2) + ")" == group;
    }
    assert GroupTexts([[c1, c2]]) == Ok([group]) by {
      var r := GroupTexts([[c1, c2]]);
      assert r.Ok? && r.value == [group];
    }
    assert Join(", ", [assignment]) == assignment;
    assert Join(" OR ", [group]) == group;
    assert Render(q) == Ok(q.base + "" + (" SET " + assignment) + (" WHERE " + group) + "" + "" + "");
    assert q.base + "" + (" SET " + assignment) + (" WHERE " + group) + "" + "" + ""
        == q.base + " SET " + assignment + " WHERE " + group;
  }

  /** The statement `delete` sends, and its parameters in placeholder order:
      the new timestamp, then the list of ids. */
  lemma DeleteStatement(table: string, deleted: int, ids: seq<int>)
    ensures DeleteQuery(table, deleted, ids).Ok?
    ensures DeleteQuery(table, deleted, ids).value.params == [Stamp(deleted), Array(IntValues(ids))]
    ensures Render(DeleteQuery(table, deleted, ids).value)
         == Ok("UPDATE " + table + " SET " + (Quote("_deleted") + " = %s")
               + " WHERE " + ("(" + (Quote("_deleted") + " IS NULL") + " AND " + (Quote("_id") + " = ANY(%s)") + ")"))
  {
    DeleteQueryValue(table, deleted, ids);
    var q := DeleteQuery(table, deleted, ids).value;
    RenderSetWhere(q, Quote("_deleted") + " = %s", Quote("_deleted") + " IS NULL", Quote("_id") + " = ANY(%s)");
  }

  /** A row's `_deleted` is stamped when it is active and its id is listed. */
  function MarkDeleted(rows: seq<Versioned>, deleted: int, ids: seq<int>): (r: seq<Versioned>)
    ensures |r| == |rows|
    ensures forall i | 0 <= i < |rows| ::
      r[i] == if rows[i].deleted.None? && rows[i].id in ids then rows[i].(deleted := Some(deleted)) else rows[i]
  {
    if |rows| == 0 then []
    else
      var v := rows[0];
      [if v.deleted.None? && v.id in ids then v.(deleted := Some(deleted)) else v] + MarkDeleted(rows[1..], deleted, ids)
  }

  /** `Endpoint.delete`: only active rows whose id is listed change, and only in
      `_deleted`, which becomes `deleted`. */
  function Delete(t: Table, deleted: int, ids: seq<int>): (r: Result<Table>)
    ensures r.Ok? <==> t.present
    ensures r.Ok? ==> |r.value.rows| == |t.rows| && r.value.(rows := t.rows) == t
    ensures r.Ok? ==> forall i | 0 <= i < |t.rows| ::
      && r.value.rows[i].(deleted := t.rows[i].deleted) == t.rows[i]
      && (r.value.rows[i] != t.rows[i] <==> t.rows[i].deleted.None? && t.rows[i].id in ids)
      && (r.value.rows[i] != t.rows[i] ==> r.value.rows[i].deleted == Some(deleted))
  {
    // The statement always renders: see DeleteStatement.
    if !t.present then Err(NoRelation(t.name))
    else Ok(t.(rows := MarkDeleted(t.rows, deleted, ids)))
  }

  /** The rows `delete` changes are exactly those its WHERE clause selects. */
  lemma DeleteFollowsWhere(t: Table, deleted: int, ids: seq<int>, i: int)
    requires t.present && 0 <= i < |t.rows|
    ensures Delete(t, deleted, ids).value.rows[i] != t.rows[i]
        <==> GroupHolds(RowMap(t.model, t.rows[i]), DeleteCondition(ids))
  {
    var v := t.rows[i];
    var row := RowMap(t.model, v);
    var kw := DeleteCondition(ids);
    PlainKeys();
    assert ArgHolds(row, "_deleted", Null) <==> v.deleted.None?;
    assert Int(v.id) in IntValues(ids) <==> v.id in ids by {
      if v.id in ids {
        var k :| 0 <= k < |ids| && ids[k] == v.id;
        assert IntValues(ids)[k] == Int(v.id);
      }
    }
    assert ArgHolds(row, "_id__in", Array(IntValues(ids))) <==> v.id in ids;
    assert kw[0] == ("_deleted", Null) && kw[1] == ("_id__in", Array(IntValues(ids)));
  }

  /** Already deleted rows keep their first timestamp, so repeating a delete changes nothing. */
  lemma DeleteIdempotent(t: Table, deleted: int, ids: seq<int>)
    requires t.present
    ensures Delete(Delete(t, deleted, ids).value, deleted, ids) == Delete(t, deleted, ids)
  {
    var once := Delete(t, deleted, ids).value;
    var twice := Delete(once, deleted, ids).value;
    assert twice.rows == once.rows;
  }

  lemma DeleteKeepsValid(t: Table, deleted: int, ids: seq<int>)
    requires Valid(t) && t.present
    ensures Valid(Delete(t, deleted, ids).value)
  {
    var u := Delete(t, deleted, ids).value;
    assert forall i | 0 <= i < |u.rows| :: u.rows[i].id == t.rows[i].id && u.rows[i].data == t.rows[i].data;
  }

  /** Appending no rows leaves a table as it was. */
  lemma AddNothing(t: Table, ts: int)
    requires t.present
    ensures Add(t, ts, []) == Ok(t)
  {
    var u := Add(t, ts, []).value;
    assert u.rows == u.rows[..|t.rows|] == t.rows;
  }

  /** Deleting no ids leaves a table as it was. */
  lemma DeleteNothing(t: Table, ts: int)
    requires t.present
    ensures Delete(t, ts, []) == Ok(t)
  {
    var u := Delete(t, ts, []).value;
    assert u.rows == t.rows;
  }

  // ---------------------------------------------------------------------------
  // all, one, count, twenty
  // ---------------------------------------------------------------------------

  function ColumnSet(m: Model): set<string> {
    set c | c in Fields(m)
  }

  /** The rows a WHERE clause of `groups` selects, in stored order. */
  function Selected(t: Table, groups: seq<Kwargs>): (r: seq<Versioned>)
    ensures forall v :: v in r <==> v in t.rows && Matches(RowMap(t.model, v), groups)
  {
    Keep(t.rows, (v: Versioned) => Matches(RowMap(t.model, v), groups))
  }

  /** Runs `base.where(**kw)`, a SELECT or COUNT with this one condition and
      no ORDER BY or LIMIT, as `all`, `one` and `count` send it: the statement
      must build and render, the table must exist and every column the
      condition names must be one of its. The database returns the tuple of
      every row the condition holds for, in stored order. */
  function Execute(t: Table, base: Query, kw: Kwargs): (r: Result<seq<seq<Value>>>)
    requires base.groups == [] && base.orderBy == [] && base.limit == None
    ensures r.Ok? <==>
      && Where(base, kw).Ok? && Render(Where(base, kw).value).Ok?
      && t.present && KnownColumns(ColumnSet(t.model), [kw])
    ensures r.Ok? ==> Where(base, kw).value.groups == [ParseQargs(kw).value.terms]
    ensures r.Ok? ==> forall row :: row in r.value <==>
      exists v | v in t.rows :: GroupHolds(RowMap(t.model, v), kw) && row == Columns(v)
    ensures r.Ok? ==> r.value == Tuples(Selected(t, [kw]))
  {
    var q :- Where(base, kw);
    var text :- Render(q);
    if !t.present then Err(NoRelation(t.name))
    else if !KnownColumns(ColumnSet(t.model), [kw]) then Err(DbError("column does not exist"))
    else
      SelectedTuples(t, kw);
      Ok(Tuples(Selected(t, [kw])))
  }

  /** The tuples of the selected rows are the tuples of the rows the condition holds for. */
  lemma SelectedTuples(t: Table, kw: Kwargs)
    ensures forall row :: row in Tuples(Selected(t, [kw])) <==>
      exists v | v in t.rows :: GroupHolds(RowMap(t.model, v), kw) && row == Columns(v)
  {
    var sel := Selected(t, [kw]);
    SingleGroup(kw);
    forall row
      ensures row in Tuples(sel) <==> exists v | v in t.rows :: GroupHolds(RowMap(t.model, v), kw) && row == Columns(v)
    {
      if row in Tuples(sel) {
        var i :| 0 <= i < |sel| && Tuples(sel)[i] == row;
        assert sel[i] in sel;
      }
      if exists v | v in t.rows :: GroupHolds(RowMap(t.model, v), kw) && row == Columns(v) {
        var v :| v in t.rows && GroupHolds(RowMap(t.model, v), kw) && row == Columns(v);
        assert v in sel;
        var i :| 0 <= i < |sel| && sel[i] == v;
        assert Tuples(sel)[i] == row;
      }
    }
  }

  /** `Endpoint.all(self, **params)`: the stored versions the keyword conditions
      select, read back from their tuples. A `self` keyword repeats the bound
      instance. Without any condition term the WHERE group is empty and
      rendering fails. */
  function All(t: Table, kw: Kwargs): (r: Result<seq<Versioned>>)
    ensures "self" in Keys(kw) ==> r == Err(MultipleValues("Endpoint.all", "self"))
    ensures r.Ok? ==> t.present
    ensures r.Ok? ==> forall v :: v in r.value <==> v in t.rows && GroupHolds(RowMap(t.model, v), kw)
    ensures "self" !in Keys(kw) && ParseQargs(kw).Ok? && ParseQargs(kw).value.terms == [] ==>
      r == Err(IndexError("tuple index out of range"))
  {
    if "self" in Keys(kw) then Err(MultipleValues("Endpoint.all", "self"))
    else
      var tuples :- Execute(t, Select(t.name, Fields(t.model)), kw);
      MaterializeAllTuples(Selected(t, [kw]));
      SingleGroup(kw);
      Ok(MaterializeAll(tuples))
  }

  /** `all(_deleted=None)` is exactly the active rows, in stored order. */
  lemma AllActive(t: Table)
    requires t.present
    ensures All(t, [("_deleted", Null)]) == Ok(Keep(t.rows, (v: Versioned) => v.deleted.None?))
  {
    var kw := [("_deleted", Null)];
    PlainKeys();
    QueryProperties.ParseQargsSingle("_deleted", Null);
    assert ParseQargs(kw) == Ok(Parsed([Quote("_deleted") + " IS NULL"], []));
    var q := Where(Select(t.name, Fields(t.model)), kw).value;
    assert q.groups == [[Quote("_deleted") + " IS NULL"]];
    assert KnownColumns(ColumnSet(t.model), [kw]) by {
      assert Referenced(kw) == {"_deleted"};
      assert Fields(t.model)[2] == "_deleted";
    }
    assert Render(q).Ok?;
    forall i | 0 <= i < |t.rows|
      ensures Matches(RowMap(t.model, t.rows[i]), [kw]) == t.rows[i].deleted.None?
    {
      SingleGroup(kw);
      ActiveCondition(RowMap(t.model, t.rows[i]));
    }
    KeepSame(t.rows, (v: Versioned) => Matches(RowMap(t.model, v), [kw]), (v: Versioned) => v.deleted.None?);
    MaterializeAllTuples(Selected(t, [kw]));
  }

  /** `Endpoint.one(self, **params)`: the first row `all` would yield; without
      one, `row[0]` fails on the `None` that `fetchone` returns. */
  function One(t: Table, kw: Kwargs): (r: Result<Versioned>)
    ensures "self" in Keys(kw) ==> r == Err(MultipleValues("Endpoint.one", "self"))
    ensures "self" !in Keys(kw) && All(t, kw).Err? ==> r == Err(All(t, kw).error)
    ensures All(t, kw).Ok? && |All(t, kw).value| > 0 ==> r == Ok(All(t, kw).value[0])
    ensures All(t, kw).Ok? && |All(t, kw).value| == 0 ==> r == Err(TypeError("'NoneType' object is not subscriptable"))
  {
    if "self" in Keys(kw) then Err(MultipleValues("Endpoint.one", "self"))
    else
      var tuples :- Execute(t, Select(t.name, Fields(t.model)), kw);
      MaterializeAllTuples(Selected(t, [kw]));
      if |tuples| == 0 then Err(TypeError("'NoneType' object is not subscriptable"))
      else Ok(Materialize(tuples[0]))
  }

  /** `Endpoint.count` as written: `query, params = <Query>` unpacks a `Query`
      object, which is not iterable, so every call that gets that far raises. */
  function CountAsWritten(t: Table, kw: Kwargs): (r: Result<int>)
    ensures r.Err?
    ensures "self" in Keys(kw) ==> r == Err(MultipleValues("Endpoint.count", "self"))
    ensures "self" !in Keys(kw) && ParseQargs(kw).Ok? ==> r == Err(TypeError("cannot unpack non-iterable Query object"))
  {
    if "self" in Keys(kw) then Err(MultipleValues("Endpoint.count", "self"))
    else
      var q :- Where(Count(t.name), kw);
      Err(TypeError("cannot unpack non-iterable Query object"))
  }

  /** `Endpoint.count` as evidently intended: `SELECT COUNT(*)` under the same
      conditions as `all`. */
  function CountRows(t: Table, kw: Kwargs): (r: Result<int>)
    ensures "self" in Keys(kw) ==> r == Err(MultipleValues("Endpoint.count", "self"))
    ensures r.Ok? <==> All(t, kw).Ok?
    ensures r.Ok? ==> r.value == |All(t, kw).value|
  {
    if "self" in Keys(kw) then Err(MultipleValues("Endpoint.count", "self"))
    else
      var tuples :- Execute(t, Count(t.name), kw);
      Ok(|tuples|)
  }

  /** `('id', '_created') if 'id' in fields else ('_id',)` */
  function TwentyOrder(m: Model): seq<string> {
    if "id" in Fields(m) then ["id", "_created"] else ["_id"]
  }

  /** `where(_created=ts).or_(_deleted=ts)` */
  function TwentyGroups(ts: int): seq<Kwargs> {
    [[("_created", Stamp(ts))], [("_deleted", Stamp(ts))]]
  }

  /** The statement of `Endpoint.twenty`. */
  function TwentyQuery(t: Table, ts: int): Result<Query> {
    var q1 :- Where(Select(t.name, Fields(t.model)), TwentyGroups(ts)[0]);
    var q2 :- Or(q1, TwentyGroups(ts)[1]);
    var q3 :- OrderBy(q2, TwentyOrder(t.model));
    Limit(q3, 20)
  }

  /** Bare column names order as `"name" `, with the trailing space of an absent modifier. */
  lemma BareOrderItems(a: string, b: string)
    requires |a| > 0 && NoSpace(a) && |b| > 0 && NoSpace(b)
    ensures OrderItems([a]) == Ok([Quote(a) + " "])
    ensures OrderItems([a, b]) == Ok([Quote(a) + " ", Quote(b) + " "])
  {
    QueryProperties.OrderItemForms(a, b, b);
    QueryProperties.OrderItemForms(b, a, a);
    QueryProperties.OrderItemsPair(a, b, Quote(a) + " ", Quote(b) + " ");
    var r := OrderItems([a]);
    assert r.Ok? && r.value == [Quote(a) + " "];
  }

  lemma TwentyOrderItems(m: Model)
    ensures OrderItems(TwentyOrder(m)).Ok?
    ensures OrderItems(TwentyOrder(m)).value
         == if "id" in Fields(m) then [Quote("id") + " ", Quote("_created") + " "] else [Quote("_id") + " "]
  {
    assert NoSpace("id") && NoSpace("_created") && NoSpace("_id");
    if "id" in Fields(m) {
      BareOrderItems("id", "_created");
    } else {
      BareOrderItems("_id", "_id");
    }
  }

  /** `twenty` binds `ts` twice, once per group, orders by the id columns and
      limits to 20; the statement always builds and renders. */
  lemma TwentyStatement(t: Table, ts: int)
    ensures TwentyQuery(t, ts).Ok?
    ensures
      var q := TwentyQuery(t, ts).value;
      && q.params == [Stamp(ts), Stamp(ts)]
      && q.groups == [[Quote("_created") + " = %s"], [Quote("_deleted") + " = %s"]]
      && q.orderBy == OrderItems(TwentyOrder(t.model)).value
      && q.limit == Some(20)
      && Render(q).Ok?
  {
    TwentyBuild(t, ts);
    var q := TwentyQuery(t, ts).value;
    NonEmptyGroupsRender(q);
  }

  lemma NonEmptyGroupsRender(q: Query)
    requires q.groups == [[Quote("_created") + " = %s"], [Quote("_deleted") + " = %s"]]
    ensures Render(q).Ok?
  {
    assert q.groups[0] != [] && q.groups[1] != [];
  }

  /** The statement of `twenty` as a value. */
  lemma TwentyBuild(t: Table, ts: int)
    ensures OrderItems(TwentyOrder(t.model)).Ok?
    ensures TwentyQuery(t, ts)
         == Ok(Select(t.name, Fields(t.model)).(params := [Stamp(ts), Stamp(ts)],
                                                groups := [[Quote("_created") + " = %s"], [Quote("_deleted") + " = %s"]],
                                                orderBy := OrderItems(TwentyOrder(t.model)).value,
                                                limit := Some(20)))
  {
    var q0 := Select(t.name, Fields(t.model));
    var q1 := q0.(params := [Stamp(ts)], groups := [[Quote("_created") + " = %s"]]);
    var q2 := q1.(params := [Stamp(ts), Stamp(ts)], groups := [[Quote("_created") + " = %s"], [Quote("_deleted") + " = %s"]]);
    TwentyOrderItems(t.model);
    var q3 := q2.(orderBy := OrderItems(TwentyOrder(t.model)).value);
    TwentyWhere(q0, ts);
    TwentyOr(q1, ts);
    assert OrderBy(q2, TwentyOrder(t.model)) == Ok(q3);
    assert Limit(q3, 20) == Ok(q3.(limit := Some(20)));
  }

  /** `where(_created=ts)` on a statement with no condition yet. */
  lemma TwentyWhere(q: Query, ts: int)
    requires WHERE in q.declared && q.params == [] && q.groups == []
    ensures Where(q, TwentyGroups(ts)[0]) == Ok(q.(params := [Stamp(ts)], groups := [[Quote("_created") + " = %s"]]))
  {
    TwentyPlain();
    assert TwentyGroups(ts)[0] == [("_created", Stamp(ts))];
    QueryProperties.WhereEquality(q, "_created", Stamp(ts));
    assert q.params + [Stamp(ts)] == [Stamp(ts)];
    assert q.groups + [[Quote("_created") + " = %s"]] == [[Quote("_created") + " = %s"]];
  }

  /** `.or_(_deleted=ts)` after `where(_created=ts)`. */
  lemma TwentyOr(q: Query, ts: int)
    requires WHERE in q.declared && q.params == [Stamp(ts)] && q.groups == [[Quote("_created") + " = %s"]]
    ensures Or(q, TwentyGroups(ts)[1])
         == Ok(q.(params := [Stamp(ts), Stamp(ts)], groups := [[Quote("_created") + " = %s"], [Quote("_deleted") + " = %s"]]))
  {
    TwentyPlain();
    assert TwentyGroups(ts)[1] == [("_deleted", Stamp(ts))];
    QueryProperties.WhereEquality(q, "_deleted", Stamp(ts));
    assert q.params + [Stamp(ts)] == [Stamp(ts), Stamp(ts)];
    assert q.groups + [[Quote("_deleted") + " = %s"]] == [[Quote("_created") + " = %s"], [Quote("_deleted") + " = %s"]];
  }

  lemma TwentyPlain()
    ensures QueryProperties.PlainName("_created") && QueryProperties.PlainName("_deleted")
  {
    PlainKeys();
  }

  /** `twenty` selects exactly the rows created or deleted at `ts`. */
  lemma TwentyCondition(m: Model, v: Versioned, ts: int)
    ensures Matches(RowMap(m, v), TwentyGroups(ts)) <==> v.created == ts || v.deleted == Some(ts)
  {
    PlainKeys();
    var row := RowMap(m, v);
    var gs := TwentyGroups(ts);
    assert GroupHolds(row, gs[0]) <==> v.created == ts by {
      assert gs[0][0] == ("_created", Stamp(ts));
    }
    assert GroupHolds(row, gs[1]) <==> v.deleted == Some(ts) by {
      assert gs[1][0] == ("_deleted", Stamp(ts));
    }
  }

  /** The ORDER BY key of `twenty` for a row. */
  function TwentyKey(m: Model): Versioned -> seq<Value> {
    (v: Versioned) => SortKey(TwentyOrder(m), RowMap(m, v))
  }

  /** The cells of `columns`, NULL for a column the row lacks. */
  function SortKey(columns: seq<string>, row: Row): (r: seq<Value>)
    ensures |r| == |columns|
  {
    if |columns| == 0 then []
    else [if columns[0] in row then row[columns[0]] else Null] + SortKey(columns[1..], row)
  }

  function Take<T>(s: seq<T>, n: nat): (r: seq<T>)
    ensures |r| <= n && r <= s
    ensures |s| <= n ==> r == s
  {
    if |s| <= n then s else s[..n]
  }

  /** The versions `twenty` returns: the selected rows in ORDER BY order, at most 20. */
  function TwentyRows(t: Table, ts: int): seq<Versioned> {
    Take(Ordering.SortBy(Selected(t, TwentyGroups(ts)), TwentyKey(t.model)), 20)
  }

  /** `Endpoint.twenty(ts)`: the raw tuples of the rows created or deleted at `ts`. */
  function Twenty(t: Table, ts: int): (r: Result<seq<seq<Value>>>)
    ensures r.Ok? <==> t.present
    ensures r.Ok? ==> |r.value| <= 20
    ensures r.Ok? ==> r.value == Tuples(TwentyRows(t, ts))
  {
    // The statement always builds and renders: see TwentyStatement.
    if !t.present then Err(NoRelation(t.name))
    else Ok(Tuples(TwentyRows(t, ts)))
  }

  /** What `twenty` returns: rows of the table created or deleted at `ts`, in
      ORDER BY order; all of them when there are at most 20, and otherwise the
      first 20 in that order, so that no row left out sorts before a row returned. */
  lemma TwentySelects(t: Table, ts: int)
    ensures
      var rows := TwentyRows(t, ts);
      var hits := Keep(t.rows, (v: Versioned) => v.created == ts || v.deleted == Some(ts));
      && Ordering.SortedBy(rows, TwentyKey(t.model))
      && (forall k | 0 <= k < |rows| :: rows[k] in t.rows && (rows[k].created == ts || rows[k].deleted == Some(ts)))
      && |rows| == (if |hits| < 20 then |hits| else 20)
      && (|hits| <= 20 ==> multiset(rows) == multiset(hits))
      && (forall k, h | 0 <= k < |rows| && h in hits && h !in rows ::
            Ordering.KeyLeq(TwentyKey(t.model)(rows[k]), TwentyKey(t.model)(h)))
  {
    var selected := Selected(t, TwentyGroups(ts));
    var sorted := Ordering.SortBy(selected, TwentyKey(t.model));
    Ordering.SortByCorrect(selected, TwentyKey(t.model));
    forall i | 0 <= i < |t.rows|
      ensures Matches(RowMap(t.model, t.rows[i]), TwentyGroups(ts)) == (t.rows[i].created == ts || t.rows[i].deleted == Some(ts))
    {
      TwentyCondition(t.model, t.rows[i], ts);
    }
    KeepSame(t.rows, (v: Versioned) => Matches(RowMap(t.model, v), TwentyGroups(ts)),
             (v: Versioned) => v.created == ts || v.deleted == Some(ts));
    TwentyPicked(t, ts);
    TakeLeavesLater(sorted, TwentyKey(t.model), 20);
    forall h | h in selected
      ensures h in sorted
    {
      Ordering.SortByMembers(selected, TwentyKey(t.model), h);
    }
  }

  /** Every row `twenty` returns is a row of the table created or deleted at `ts`. */
  lemma TwentyPicked(t: Table, ts: int)
    ensures forall k | 0 <= k < |TwentyRows(t, ts)| ::
      TwentyRows(t, ts)[k] in t.rows && (TwentyRows(t, ts)[k].created == ts || TwentyRows(t, ts)[k].deleted == Some(ts))
  {
    var selected := Selected(t, TwentyGroups(ts));
    var sorted := Ordering.SortBy(selected, TwentyKey(t.model));
    var rows := TwentyRows(t, ts);
    forall k | 0 <= k < |rows|
      ensures rows[k] in t.rows && (rows[k].created == ts || rows[k].deleted == Some(ts))
    {
      assert rows[k] == sorted[k];
      Ordering.SortByMembers(selected, TwentyKey(t.model), rows[k]);
      TwentyCondition(t.model, rows[k], ts);
    }
  }

  /** Of a sorted sequence, no element left out of the first `n` sorts before
      one kept. */
  lemma TakeLeavesLater<T>(sorted: seq<T>, key: T -> seq<Value>, n: nat)
    requires Ordering.SortedBy(sorted, key)
    ensures forall k, h | 0 <= k < |Take(sorted, n)| && h in sorted && h !in Take(sorted, n) ::
      Ordering.KeyLeq(key(Take(sorted, n)[k]), key(h))
  {
    var rows := Take(sorted, n);
    forall k, h | 0 <= k < |rows| && h in sorted && h !in rows
      ensures Ordering.KeyLeq(key(rows[k]), key(h))
    {
      var j :| 0 <= j < |sorted| && sorted[j] == h;
      assert |sorted| > n && rows == sorted[..n];
      assert j >= n;
      assert rows[k] == sorted[k];
    }
  }

}
