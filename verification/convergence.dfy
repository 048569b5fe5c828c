/** Why `pull` is a synchronisation: once a pull has run through without an
    error, the active rows of the table hold exactly the rows the API
    returned, each once, so diffing the same answer again finds nothing to
    append and nothing to delete.
 */
module Convergence {

  import opened Results
  import opened Datum
  import opened RowFilter
  import Store
  import JobLog
  import Transform
  import Sync
  import QueryBuilder

  type Row = seq<Value>

  /** The tuple `diff` compares a stored row by. */
  function KeyOf(m: Store.Model, v: Store.Versioned): Row
    requires |v.data| >= |m|
  {
    Transform.ToMain(m, Transform.Identity, v.data).value
  }

  /** The row `add` stores for the `k`-th new tuple. */
  function NewRow(t: Store.Table, ts: int, newRows: seq<Row>, k: int): Store.Versioned
    requires 0 <= k < |newRows|
  {
    Store.Versioned(t.nextId + k, ts, None, newRows[k])
  }

  /** Two rows of a valid table with the same id are the same row. */
  lemma SameIdSameRow(t: Store.Table, v: Store.Versioned, w: Store.Versioned)
    requires Store.Valid(t) && v in t.rows && w in t.rows && v.id == w.id
    ensures v == w
  {
    var i :| 0 <= i < |t.rows| && t.rows[i] == v;
    var j :| 0 <= j < |t.rows| && t.rows[j] == w;
    assert i == j;
  }

  /** Filtering keeps distinct elements distinct. */
  lemma {:induction false} KeepDistinct<T(!new)>(s: seq<T>, p: T -> bool)
    requires Distinct(s)
    ensures Distinct(Keep(s, p))
    decreases |s|
  {
    if |s| > 0 {
      assert forall i, j | 0 <= i < j < |s| - 1 :: s[1..][i] == s[i + 1] && s[1..][j] == s[j + 1];
      KeepDistinct(s[1..], p);
      assert s[0] !in s[1..];
    }
  }

  /** The first position of an element. */
  lemma FirstIndex<T>(s: seq<T>, x: T) returns (j: int)
    requires x in s
    ensures 0 <= j < |s| && s[j] == x && x !in s[..j]
  {
    j := 0;
    while s[j] != x
      invariant 0 <= j < |s| && x !in s[..j] && x in s[j..]
      decreases |s| - j
    {
      assert s[j..] == [s[j]] + s[j + 1..];
      j := j + 1;
    }
  }

  /** The active rows of a valid table, as `all(_deleted=None)` reads them, and
      what `diff` makes of them with no `main_kwargs`. */
  lemma ActiveView(t: Store.Table, origin: seq<Row>)
    requires Store.Valid(t) && t.present
    ensures Store.All(t, [("_deleted", Null)]).Ok?
    ensures
      var recs := Store.All(t, [("_deleted", Null)]).value;
      && (forall v :: v in recs <==> v in t.rows && v.deleted.None?)
      && Distinct(recs)
      && Distinct(Sync.Ids(recs))
      && Sync.MainKeys(t.model, recs).Ok?
      && Sync.Diff(t, [], origin) == Ok(Sync.DiffFold(Sync.MainKeys(t.model, recs).value, Sync.Ids(recs), origin))
  {
    ActiveRows(t);
    var recs := Store.All(t, [("_deleted", Null)]).value;
    ActiveDiff(t, origin, recs);
  }

  /** The rows `all(_deleted=None)` returns: the active rows, each once, with distinct ids. */
  lemma ActiveRows(t: Store.Table)
    requires Store.Valid(t) && t.present
    ensures Store.All(t, [("_deleted", Null)]).Ok?
    ensures
      var recs := Store.All(t, [("_deleted", Null)]).value;
      && (forall v :: v in recs <==> v in t.rows && v.deleted.None?)
      && Distinct(recs)
      && Distinct(Sync.Ids(recs))
      && (forall i | 0 <= i < |recs| :: |recs[i].data| >= |t.model|)
  {
    Store.AllActive(t);
    var recs := Keep(t.rows, (v: Store.Versioned) => v.deleted.None?);
    RowsDistinct(t);
    KeepDistinct(t.rows, (v: Store.Versioned) => v.deleted.None?);
    StoredRows(t, recs);
  }

  /** The rows of a valid table are distinct: their ids are. */
  lemma RowsDistinct(t: Store.Table)
    requires Store.Valid(t)
    ensures Distinct(t.rows)
  {
    forall i, j | 0 <= i < j < |t.rows|
      ensures t.rows[i] != t.rows[j]
    {
      assert t.rows[i].id != t.rows[j].id;
    }
  }

  /** Distinct rows of a valid table have distinct ids and full data. */
  lemma StoredRows(t: Store.Table, recs: seq<Store.Versioned>)
    requires Store.Valid(t) && Distinct(recs) && forall v | v in recs :: v in t.rows
    ensures Distinct(Sync.Ids(recs))
    ensures forall i | 0 <= i < |recs| :: |recs[i].data| >= |t.model|
  {
    var ids := Sync.Ids(recs);
    forall i, j | 0 <= i < j < |recs|
      ensures ids[i] != ids[j]
    {
      if ids[i] == ids[j] {
        SameIdSameRow(t, recs[i], recs[j]);
      }
    }
    forall i | 0 <= i < |recs|
      ensures |recs[i].data| >= |t.model|
    {
      assert recs[i] in recs;
      var k :| 0 <= k < |t.rows| && t.rows[k] == recs[i];
    }
  }

  /** With no `main_kwargs`, `diff` folds over the tuples and ids of the active rows. */
  lemma ActiveDiff(t: Store.Table, origin: seq<Row>, recs: seq<Store.Versioned>)
    requires Store.All(t, [("_deleted", Null)]) == Ok(recs)
    requires forall i | 0 <= i < |recs| :: |recs[i].data| >= |t.model|
    ensures Sync.MainKeys(t.model, recs).Ok?
    ensures Sync.Diff(t, [], origin) == Ok(Sync.DiffFold(Sync.MainKeys(t.model, recs).value, Sync.Ids(recs), origin))
  {
    assert [("_deleted", Null)] + [] == [("_deleted", Null)];
    assert "_deleted" !in QueryBuilder.Keys<Value>([]);
  }

  /** After appending `newRows` and deleting `doomed` (ids of rows the table
      already had), a row is active exactly when it was an active row whose id
      was not doomed, or is one of the appended rows. */
  lemma AfterActive(t: Store.Table, ts: int, newRows: seq<Row>, doomed: seq<int>, after: Store.Table)
    requires Store.Valid(t) && Store.Add(t, ts, newRows).Ok?
    requires Store.Delete(Store.Add(t, ts, newRows).value, ts, doomed) == Ok(after)
    requires forall id | id in doomed :: id < t.nextId
    ensures forall v :: v in after.rows && v.deleted.None? <==>
      || (v in t.rows && v.deleted.None? && v.id !in doomed)
      || (exists k | 0 <= k < |newRows| :: v == NewRow(t, ts, newRows, k))
  {
    var u := Store.Add(t, ts, newRows).value;
    AddedRows(t, ts, newRows, u);
    MarkedRows(u, ts, doomed, after);
    ActiveAfter(t, ts, newRows, doomed, u, after);
  }

  /** `add` keeps the rows a table had and appends one new row per tuple. */
  lemma AddedRows(t: Store.Table, ts: int, newRows: seq<Row>, u: Store.Table)
    requires Store.Add(t, ts, newRows) == Ok(u)
    ensures |u.rows| == |t.rows| + |newRows|
    ensures forall i | 0 <= i < |t.rows| :: u.rows[i] == t.rows[i]
    ensures forall k | 0 <= k < |newRows| :: u.rows[|t.rows| + k] == NewRow(t, ts, newRows, k)
  {
    var n := |t.rows|;
    forall i | 0 <= i < n
      ensures u.rows[i] == t.rows[i]
    {
      assert u.rows[..n][i] == t.rows[i];
    }
  }

  /** `delete` marks the active rows whose id it is given and keeps every other row. */
  lemma MarkedRows(u: Store.Table, ts: int, doomed: seq<int>, after: Store.Table)
    requires Store.Delete(u, ts, doomed) == Ok(after)
    ensures |after.rows| == |u.rows|
    ensures forall i | 0 <= i < |u.rows| ::
      && (after.rows[i].deleted.None? <==> u.rows[i].deleted.None? && u.rows[i].id !in doomed)
      && (after.rows[i].deleted.None? ==> after.rows[i] == u.rows[i])
  {
    forall i | 0 <= i < |u.rows|
      ensures after.rows[i].deleted.None? <==> u.rows[i].deleted.None? && u.rows[i].id !in doomed
      ensures after.rows[i].deleted.None? ==> after.rows[i] == u.rows[i]
    {
      if after.rows[i] != u.rows[i] {
        assert after.rows[i].deleted == Some(ts);
      }
    }
  }

  /** The active rows once both steps are done. */
  lemma ActiveAfter(t: Store.Table, ts: int, newRows: seq<Row>, doomed: seq<int>, u: Store.Table, after: Store.Table)
    requires |u.rows| == |t.rows| + |newRows| && |after.rows| == |u.rows|
    requires forall i | 0 <= i < |t.rows| :: u.rows[i] == t.rows[i]
    requires forall k | 0 <= k < |newRows| :: u.rows[|t.rows| + k] == NewRow(t, ts, newRows, k)
    requires forall i | 0 <= i < |u.rows| ::
      && (after.rows[i].deleted.None? <==> u.rows[i].deleted.None? && u.rows[i].id !in doomed)
      && (after.rows[i].deleted.None? ==> after.rows[i] == u.rows[i])
    requires forall id | id in doomed :: id < t.nextId
    ensures forall v :: v in after.rows && v.deleted.None? <==>
      || (v in t.rows && v.deleted.None? && v.id !in doomed)
      || (exists k | 0 <= k < |newRows| :: v == NewRow(t, ts, newRows, k))
  {
    var n := |t.rows|;
    forall v | v in after.rows && v.deleted.None?
      ensures || (v in t.rows && v.deleted.None? && v.id !in doomed)
              || (exists k | 0 <= k < |newRows| :: v == NewRow(t, ts, newRows, k))
    {
      var i :| 0 <= i < |after.rows| && after.rows[i] == v;
      if i >= n {
        assert v == NewRow(t, ts, newRows, i - n);
      } else {
        assert v == t.rows[i];
      }
    }
    forall v | v in t.rows && v.deleted.None? && v.id !in doomed
      ensures v in after.rows
    {
      var i :| 0 <= i < n && t.rows[i] == v;
      assert after.rows[i] == v;
    }
    forall k | 0 <= k < |newRows|
      ensures NewRow(t, ts, newRows, k) in after.rows && NewRow(t, ts, newRows, k).deleted.None?
    {
      assert u.rows[n + k] == NewRow(t, ts, newRows, k);
      assert NewRow(t, ts, newRows, k).id !in doomed;
      assert after.rows[n + k] == NewRow(t, ts, newRows, k);
    }
  }

  /** What one `diff` of table `t` against the API rows `origin` established:
      `recs` are the active rows in visit order, with tuples `keys` and ids
      `ids`; `newRows` are the API rows no active row had; an active row is
      doomed when its tuple is not an API row or repeats an earlier one. */
  ghost predicate Diffed(t: Store.Table, origin: seq<Row>, recs: seq<Store.Versioned>, keys: seq<Row>, ids: seq<int>,
                   newRows: seq<Row>, doomed: seq<int>) {
    && (forall v :: v in recs <==> v in t.rows && v.deleted.None?)
    && |keys| == |recs| && |ids| == |recs|
    && (forall j | 0 <= j < |recs| :: |recs[j].data| >= |t.model| && keys[j] == KeyOf(t.model, recs[j]) && ids[j] == recs[j].id)
    && Distinct(newRows)
    && (forall x :: x in newRows <==> x in origin && x !in keys)
    && (forall j | 0 <= j < |recs| :: ids[j] in doomed <==> keys[j] !in origin || keys[j] in keys[..j])
    && (forall x | x in origin :: Transform.ToMain(t.model, Transform.Identity, x) == Ok(x))
  }

  /** The active rows after the pull: the undoomed rows of `recs` and the appended rows. */
  ghost predicate Survivors(t: Store.Table, ts: int, recs: seq<Store.Versioned>, newRows: seq<Row>, doomed: seq<int>,
                      active: seq<Store.Versioned>) {
    forall v :: v in active <==>
      || (v in recs && v.id !in doomed)
      || (exists k | 0 <= k < |newRows| :: v == NewRow(t, ts, newRows, k))
  }

  /** An appended row compares by the API row it was stored from. */
  lemma NewRowKey(t: Store.Table, ts: int, newRows: seq<Row>, k: int)
    requires 0 <= k < |newRows|
    requires Transform.ToMain(t.model, Transform.Identity, newRows[k]) == Ok(newRows[k])
    ensures |NewRow(t, ts, newRows, k).data| >= |t.model| && KeyOf(t.model, NewRow(t, ts, newRows, k)) == newRows[k]
  {
  }

  /** The surviving rows compare by API rows, and every API row is the tuple of a surviving row. */
  lemma SurvivorKeys(t: Store.Table, ts: int, origin: seq<Row>, recs: seq<Store.Versioned>, keys: seq<Row>, ids: seq<int>,
                     newRows: seq<Row>, doomed: seq<int>, active: seq<Store.Versioned>)
    requires Diffed(t, origin, recs, keys, ids, newRows, doomed)
    requires Survivors(t, ts, recs, newRows, doomed, active)
    ensures forall v | v in active :: |v.data| >= |t.model| && KeyOf(t.model, v) in origin
    ensures forall x | x in origin :: exists v | v in active :: |v.data| >= |t.model| && KeyOf(t.model, v) == x
  {
    forall v | v in active
      ensures |v.data| >= |t.model| && KeyOf(t.model, v) in origin
    {
      if v in recs && v.id !in doomed {
        var j :| 0 <= j < |recs| && recs[j] == v;
      } else {
        var k :| 0 <= k < |newRows| && v == NewRow(t, ts, newRows, k);
        NewRowKey(t, ts, newRows, k);
      }
    }
    forall x | x in origin
      ensures exists v | v in active :: |v.data| >= |t.model| && KeyOf(t.model, v) == x
    {
      if x in keys {
        var j := FirstIndex(keys, x);
        assert recs[j] in active;
      } else {
        var k :| 0 <= k < |newRows| && newRows[k] == x;
        NewRowKey(t, ts, newRows, k);
        assert NewRow(t, ts, newRows, k) in active;
      }
    }
  }

  /** Distinct surviving rows have distinct tuples. */
  lemma SurvivorsDistinct(t: Store.Table, ts: int, origin: seq<Row>, recs: seq<Store.Versioned>, keys: seq<Row>, ids: seq<int>,
                          newRows: seq<Row>, doomed: seq<int>, v: Store.Versioned, w: Store.Versioned)
    requires Diffed(t, origin, recs, keys, ids, newRows, doomed)
    requires (v in recs && v.id !in doomed) || (exists k | 0 <= k < |newRows| :: v == NewRow(t, ts, newRows, k))
    requires (w in recs && w.id !in doomed) || (exists k | 0 <= k < |newRows| :: w == NewRow(t, ts, newRows, k))
    requires v != w && |v.data| >= |t.model| && |w.data| >= |t.model|
    ensures KeyOf(t.model, v) != KeyOf(t.model, w)
  {
    if v in recs && v.id !in doomed && w in recs && w.id !in doomed {
      OldOld(t, origin, recs, keys, ids, newRows, doomed, v, w);
    } else if v in recs && v.id !in doomed {
      var k :| 0 <= k < |newRows| && w == NewRow(t, ts, newRows, k);
      OldNew(t, ts, origin, recs, keys, ids, newRows, doomed, v, k);
    } else if w in recs && w.id !in doomed {
      var k :| 0 <= k < |newRows| && v == NewRow(t, ts, newRows, k);
      OldNew(t, ts, origin, recs, keys, ids, newRows, doomed, w, k);
    } else {
      var k1 :| 0 <= k1 < |newRows| && v == NewRow(t, ts, newRows, k1);
      var k2 :| 0 <= k2 < |newRows| && w == NewRow(t, ts, newRows, k2);
      NewRowKey(t, ts, newRows, k1);
      NewRowKey(t, ts, newRows, k2);
    }
  }

  /** Two undoomed rows never share a tuple: the later one would have been doomed. */
  lemma OldOld(t: Store.Table, origin: seq<Row>, recs: seq<Store.Versioned>, keys: seq<Row>, ids: seq<int>,
               newRows: seq<Row>, doomed: seq<int>, v: Store.Versioned, w: Store.Versioned)
    requires Diffed(t, origin, recs, keys, ids, newRows, doomed)
    requires v in recs && v.id !in doomed && w in recs && w.id !in doomed && v != w
    ensures |v.data| >= |t.model| && |w.data| >= |t.model| && KeyOf(t.model, v) != KeyOf(t.model, w)
  {
    var j1 :| 0 <= j1 < |recs| && recs[j1] == v;
    var j2 :| 0 <= j2 < |recs| && recs[j2] == w;
    if j1 < j2 {
      assert keys[j1] in keys[..j2];
    } else {
      assert keys[j2] in keys[..j1];
    }
  }

  /** An undoomed row and an appended row never share a tuple: appended rows
      are API rows no active row had. */
  lemma OldNew(t: Store.Table, ts: int, origin: seq<Row>, recs: seq<Store.Versioned>, keys: seq<Row>, ids: seq<int>,
               newRows: seq<Row>, doomed: seq<int>, v: Store.Versioned, k: int)
    requires Diffed(t, origin, recs, keys, ids, newRows, doomed)
    requires v in recs && 0 <= k < |newRows|
    ensures |v.data| >= |t.model| && |NewRow(t, ts, newRows, k).data| >= |t.model|
    ensures KeyOf(t.model, v) != KeyOf(t.model, NewRow(t, ts, newRows, k))
  {
    var j :| 0 <= j < |recs| && recs[j] == v;
    assert newRows[k] in newRows;
    NewRowKey(t, ts, newRows, k);
  }

  /** A diff over the same API rows after its additions and deletions were
      applied finds nothing left to do. The API rows must be distinct and be
      tuples the identity transformer keeps, as `fetch` makes them. */
  lemma Converges(t: Store.Table, origin: seq<Row>, ts: int)
    requires Store.Valid(t) && t.present && Distinct(origin)
    requires forall x | x in origin :: Transform.ToMain(t.model, Transform.Identity, x) == Ok(x)
    ensures Sync.Diff(t, [], origin).Ok?
    ensures
      var (newRows, doomed) := Sync.Diff(t, [], origin).value;
      && Store.Add(t, ts, newRows).Ok?
      && Store.Delete(Store.Add(t, ts, newRows).value, ts, doomed).Ok?
      && Sync.Diff(Store.Delete(Store.Add(t, ts, newRows).value, ts, doomed).value, [], origin) == Ok(([], []))
  {
    FirstDiff(t, origin);
    var recs := Store.All(t, [("_deleted", Null)]).value;
    var keys := Sync.MainKeys(t.model, recs).value;
    var ids := Sync.Ids(recs);
    var (newRows, doomed) := Sync.Diff(t, [], origin).value;
    forall k | 0 <= k < |newRows|
      ensures |newRows[k]| == |t.model|
    {
      assert newRows[k] in origin;
    }
    var u := Store.Add(t, ts, newRows).value;
    var after := Store.Delete(u, ts, doomed).value;
    AfterActive(t, ts, newRows, doomed, after);
    Store.AddKeepsValid(t, ts, newRows);
    Store.DeleteKeepsValid(u, ts, doomed);
    Settled(t, ts, origin, recs, keys, ids, newRows, doomed, after);
  }

  /** The first diff: what it returns satisfies `Diffed`, and it dooms only ids the table has. */
  lemma FirstDiff(t: Store.Table, origin: seq<Row>)
    requires Store.Valid(t) && t.present && Distinct(origin)
    requires forall x | x in origin :: Transform.ToMain(t.model, Transform.Identity, x) == Ok(x)
    ensures Sync.Diff(t, [], origin).Ok? && Store.All(t, [("_deleted", Null)]).Ok?
    ensures
      var recs := Store.All(t, [("_deleted", Null)]).value;
      && Sync.MainKeys(t.model, recs).Ok?
      && var (newRows, doomed) := Sync.Diff(t, [], origin).value;
         && Diffed(t, origin, recs, Sync.MainKeys(t.model, recs).value, Sync.Ids(recs), newRows, doomed)
         && forall id | id in doomed :: id < t.nextId
  {
    ActiveView(t, origin);
    var recs := Store.All(t, [("_deleted", Null)]).value;
    FoldDiffed(t, origin, recs, Sync.MainKeys(t.model, recs).value, Sync.Ids(recs));
  }

  /** The fold of `diff` over the active rows satisfies `Diffed`. */
  lemma FoldDiffed(t: Store.Table, origin: seq<Row>, recs: seq<Store.Versioned>, keys: seq<Row>, ids: seq<int>)
    requires Store.Valid(t) && Distinct(origin) && Distinct(ids)
    requires forall x | x in origin :: Transform.ToMain(t.model, Transform.Identity, x) == Ok(x)
    requires forall v :: v in recs <==> v in t.rows && v.deleted.None?
    requires |keys| == |recs| && |ids| == |recs|
    requires forall j | 0 <= j < |recs| :: Transform.ToMain(t.model, Transform.Identity, recs[j].data) == Ok(keys[j])
    requires forall j | 0 <= j < |recs| :: ids[j] == recs[j].id
    ensures
      var (newRows, doomed) := Sync.DiffFold(keys, ids, origin);
      && Diffed(t, origin, recs, keys, ids, newRows, doomed)
      && forall id | id in doomed :: id < t.nextId
  {
    var (newRows, doomed) := Sync.DiffFold(keys, ids, origin);
    Sync.DiffRemaining(keys, ids, origin);
    Sync.DiffDoomed(keys, ids, origin, origin, []);
    Sync.DoomedMembers(keys, ids, origin, []);
    forall id | id in doomed
      ensures id < t.nextId
    {
      var j :| 0 <= j < |ids| && ids[j] == id;
      assert recs[j] in t.rows;
    }
    forall j | 0 <= j < |recs|
      ensures |recs[j].data| >= |t.model| && keys[j] == KeyOf(t.model, recs[j])
    {
      assert recs[j] in t.rows;
    }
  }

  /** The final diff, once the active rows are the survivors. */
  lemma Settled(t: Store.Table, ts: int, origin: seq<Row>, recs: seq<Store.Versioned>, keys: seq<Row>, ids: seq<int>,
                newRows: seq<Row>, doomed: seq<int>, after: Store.Table)
    requires Diffed(t, origin, recs, keys, ids, newRows, doomed) && Distinct(origin)
    requires Store.Valid(after) && after.present && after.model == t.model
    requires forall v :: v in after.rows && v.deleted.None? <==>
      || (v in t.rows && v.deleted.None? && v.id !in doomed)
      || (exists k | 0 <= k < |newRows| :: v == NewRow(t, ts, newRows, k))
    ensures Sync.Diff(after, [], origin) == Ok(([], []))
  {
    ActiveView(after, origin);
    var active := Store.All(after, [("_deleted", Null)]).value;
    var keys2 := Sync.MainKeys(after.model, active).value;
    var ids2 := Sync.Ids(active);
    ActiveSurvivors(t, ts, recs, newRows, doomed, after, active);
    MainKeyed(after.model, active);
    SurvivorTuples(t, ts, origin, recs, keys, ids, newRows, doomed, active, keys2);
    Sync.DiffInSync(keys2, ids2, origin);
  }

  /** The active rows of the table after the pull are the survivors. */
  lemma ActiveSurvivors(t: Store.Table, ts: int, recs: seq<Store.Versioned>, newRows: seq<Row>, doomed: seq<int>,
                        after: Store.Table, active: seq<Store.Versioned>)
    requires forall v :: v in recs <==> v in t.rows && v.deleted.None?
    requires forall v :: v in after.rows && v.deleted.None? <==>
      || (v in t.rows && v.deleted.None? && v.id !in doomed)
      || (exists k | 0 <= k < |newRows| :: v == NewRow(t, ts, newRows, k))
    requires forall v :: v in active <==> v in after.rows && v.deleted.None?
    ensures Survivors(t, ts, recs, newRows, doomed, active)
  {
  }

  /** `keys` holds, position by position, the tuple of each row of `recs`. */
  predicate Keyed(m: Store.Model, recs: seq<Store.Versioned>, keys: seq<Row>) {
    && |keys| == |recs|
    && forall p | 0 <= p < |recs| :: |recs[p].data| >= |m| && keys[p] == KeyOf(m, recs[p])
  }

  /** The tuples `diff` compares are the rows' keys. */
  lemma MainKeyed(m: Store.Model, recs: seq<Store.Versioned>)
    requires Sync.MainKeys(m, recs).Ok?
    ensures Keyed(m, recs, Sync.MainKeys(m, recs).value)
  {
  }

  /** The tuples of the surviving rows are distinct and are exactly the API rows. */
  lemma SurvivorTuples(t: Store.Table, ts: int, origin: seq<Row>, recs: seq<Store.Versioned>, keys: seq<Row>, ids: seq<int>,
                       newRows: seq<Row>, doomed: seq<int>, active: seq<Store.Versioned>, keys2: seq<Row>)
    requires Diffed(t, origin, recs, keys, ids, newRows, doomed)
    requires Survivors(t, ts, recs, newRows, doomed, active) && Distinct(active)
    requires Keyed(t.model, active, keys2)
    ensures Distinct(keys2)
    ensures forall x :: x in keys2 <==> x in origin
  {
    SurvivorKeys(t, ts, origin, recs, keys, ids, newRows, doomed, active);
    forall p, q | 0 <= p < q < |active|
      ensures keys2[p] != keys2[q]
    {
      assert active[p] in active && active[q] in active;
      SurvivorsDistinct(t, ts, origin, recs, keys, ids, newRows, doomed, active[p], active[q]);
    }
    forall x
      ensures x in keys2 <==> x in origin
    {
      if x in origin {
        var v :| v in active && |v.data| >= |t.model| && KeyOf(t.model, v) == x;
        var p :| 0 <= p < |active| && active[p] == v;
        assert keys2[p] == x;
      }
    }
  }

  // ---------------------------------------------------------------------------
  // From `pull` to the table it leaves
  // ---------------------------------------------------------------------------

  /** When both phases ran through, the table is the appended-to, then deleted-from one. */
  lemma ApplyRan(main: Store.Table, log: JobLog.Log, jobId: int, ts: int, newRows: seq<Row>, doomed: seq<int>, partial: bool)
    requires main.present && Sync.Apply(main, log, jobId, ts, newRows, doomed, partial).end.Ran?
    ensures Store.Add(main, ts, newRows).Ok? && Store.Delete(Store.Add(main, ts, newRows).value, ts, doomed).Ok?
    ensures Sync.Apply(main, log, jobId, ts, newRows, doomed, partial).main
         == Store.Delete(Store.Add(main, ts, newRows).value, ts, doomed).value
  {
    Store.AddNothing(main, ts);
    var created := Sync.AppendPhase(main, log, jobId, ts, newRows);
    assert created.main == Store.Add(main, ts, newRows).value;
    Store.DeleteNothing(created.main, ts);
  }

  /** When the guarded part of `pull` ran through, its fetch and diff succeeded
      and the table is the diff's additions and deletions applied. */
  lemma WorkRan(task: Sync.Task, main: Store.Table, log: JobLog.Log, jobId: int, remote: Sync.Remote, ts: int)
    requires main.present && Sync.Work(task, main, log, jobId, remote, ts).end == Sync.Ran(false)
    ensures Sync.Fetch(task, main.model, remote).Ok?
    ensures Sync.Diff(main, task.mainKw, Sync.Fetch(task, main.model, remote).value.0).Ok?
    ensures
      var (newRows, doomed) := Sync.Diff(main, task.mainKw, Sync.Fetch(task, main.model, remote).value.0).value;
      && Store.Add(main, ts, newRows).Ok? && Store.Delete(Store.Add(main, ts, newRows).value, ts, doomed).Ok?
      && Sync.Work(task, main, log, jobId, remote, ts).main == Store.Delete(Store.Add(main, ts, newRows).value, ts, doomed).value
  {
    var log1 := JobLog.Status(log, jobId, "fetch", []).value;
    var (added, partial) := Sync.Fetch(task, main.model, remote).value;
    var log2 := JobLog.Status(log1, jobId, "sync", []).value;
    var (newRows, doomed) := Sync.Diff(main, task.mainKw, added).value;
    ApplyRan(main, log2, jobId, ts, newRows, doomed, false);
  }

  /** After a pull that finished without an error, diffing the same API answer
      against the table again finds nothing to append and nothing to delete:
      its active rows are exactly the fetched rows, each once. */
  lemma PullConverges(task: Sync.Task, main: Store.Table, log: JobLog.Log, remote: Sync.Remote, ts: int, tsEnd: int, location: string)
    requires Store.Valid(main) && task.mainKw == []
    requires Sync.Pull(task, main, log, remote, ts, tsEnd, location).outcome.Finished?
    requires Sync.Pull(task, main, log, remote, ts, tsEnd, location).outcome.message == ""
    ensures Sync.Fetch(task, main.model, remote).Ok?
    ensures Sync.Diff(Sync.Pull(task, main, log, remote, ts, tsEnd, location).main, [], Sync.Fetch(task, main.model, remote).value.0)
         == Ok(([], []))
  {
    var main1 := Store.EnsureTable(main).value;
    var (log1, jobId) := JobLog.Start(log, main.name, ts).value;
    var w := Sync.Work(task, main1, log1, jobId, remote, ts);
    assert w.end == Sync.Ran(false);
    WorkRan(task, main1, log1, jobId, remote, ts);
    var added := Sync.Fetch(task, main.model, remote).value.0;
    FetchedFixed(task, main.model, remote);
    Converges(main1, added, ts);
  }

  /** `x` is the data of one of the rows from index `from` on. */
  predicate AppendedAt(rows: seq<Store.Versioned>, from: nat, x: Row) {
    exists k | from <= k < |rows| :: rows[k].data == x
  }

  /** An active row of `rows` holds `x` as its main-table key. */
  predicate HeldActive(rows: seq<Store.Versioned>, m: Store.Model, x: Row) {
    exists v | v in rows && v.deleted.None? && |v.data| >= |m| :: KeyOf(m, v) == x
  }

  /** A pull whose fetch an HTTP error cut short, when the fetch returned: it
      ends `failed` with the partial-fetch message, keeps every row it had,
      deleted or not, exactly as it was, and appends a fetched row exactly
      when no active row holds it already. */
  lemma PartialPullAppends(task: Sync.Task, main: Store.Table, log: JobLog.Log, remote: Sync.Remote, ts: int, tsEnd: int, location: string)
    requires Store.Valid(main) && task.mainKw == [] && remote.end.HttpFailure?
    requires JobLog.Valid(log) && log.present && Store.EnsureTable(main).Ok?
    requires Sync.Fetch(task, main.model, remote).Ok?
    ensures
      var r := Sync.Pull(task, main, log, remote, ts, tsEnd, location);
      var origin := Sync.Fetch(task, main.model, remote).value.0;
      && r.outcome == Sync.Finished(log.nextId, Sync.PartialMessage)
      && |r.main.rows| >= |main.rows| && r.main.rows[..|main.rows|] == main.rows
      && forall x | x in origin ::
           AppendedAt(r.main.rows, |main.rows|, x) <==> !HeldActive(main.rows, main.model, x)
  {
    var main1 := Store.EnsureTable(main).value;
    assert Store.Valid(main1) && main1.rows == main.rows && main1.model == main.model && main1.nextId == main.nextId;
    PlanRuns(task, main1, remote);
    Sync.PartialPull(task, main, log, remote, ts, tsEnd, location);
    var origin := Sync.Fetch(task, main.model, remote).value.0;
    var newRows := Sync.Plan(task, main1, remote).value.0;
    var rows := Sync.Pull(task, main, log, remote, ts, tsEnd, location).main.rows;
    assert Store.AppendedFrom(rows, |main.rows|, main.nextId, ts, newRows);
    PlanAppends(task, main1, remote, origin, newRows, rows, |main.rows|, main.nextId, ts);
  }

  /** On a valid table with no extra filter, a fetch that returned leads to a
      plan: `diff` does not raise. */
  lemma PlanRuns(task: Sync.Task, t: Store.Table, remote: Sync.Remote)
    requires Store.Valid(t) && t.present && task.mainKw == [] && Sync.Fetch(task, t.model, remote).Ok?
    ensures Sync.Plan(task, t, remote).Ok?
  {
    FetchedFixed(task, t.model, remote);
    FirstDiff(t, Sync.Fetch(task, t.model, remote).value.0);
  }

  /** The rows a pull with no extra filter appends after the `n` rows of `t`,
      one per row its `diff` left: a fetched row is among them exactly when
      no active row of `t` holds it. */
  lemma PlanAppends(task: Sync.Task, t: Store.Table, remote: Sync.Remote, origin: seq<Row>, newRows: seq<Row>,
                    rows: seq<Store.Versioned>, n: nat, next: int, ts: int)
    requires Store.Valid(t) && t.present && task.mainKw == []
    requires Sync.Fetch(task, t.model, remote).Ok? && origin == Sync.Fetch(task, t.model, remote).value.0
    requires Sync.Diff(t, [], origin).Ok? && newRows == Sync.Diff(t, [], origin).value.0
    requires n == |t.rows| && |rows| == n + |newRows| && Store.AppendedFrom(rows, n, next, ts, newRows)
    ensures forall x | x in origin :: AppendedAt(rows, n, x) <==> !HeldActive(t.rows, t.model, x)
  {
    FetchedFixed(task, t.model, remote);
    DiffAppends(t, origin, newRows, rows, n, next, ts);
  }

  /** `AppendedExactly` for the diff of a valid table against rows the
      identity transformer keeps. */
  lemma DiffAppends(t: Store.Table, origin: seq<Row>, newRows: seq<Row>, rows: seq<Store.Versioned>, n: nat, next: int, ts: int)
    requires Store.Valid(t) && t.present && Distinct(origin)
    requires forall x | x in origin :: Transform.ToMain(t.model, Transform.Identity, x) == Ok(x)
    requires Sync.Diff(t, [], origin).Ok? && newRows == Sync.Diff(t, [], origin).value.0
    requires n == |t.rows| && |rows| == n + |newRows|
    requires forall i | 0 <= i < |newRows| :: rows[n + i] == Store.Versioned(next + i, ts, None, newRows[i])
    ensures forall x | x in origin :: AppendedAt(rows, n, x) <==> !HeldActive(t.rows, t.model, x)
  {
    FirstDiff(t, origin);
    var recs := Store.All(t, [("_deleted", Null)]).value;
    var doomed := Sync.Diff(t, [], origin).value.1;
    assert forall v | v in t.rows :: |v.data| >= |t.model| by {
      forall v | v in t.rows ensures |v.data| >= |t.model| {
        var i :| 0 <= i < |t.rows| && t.rows[i] == v;
      }
    }
    AppendedExactly(rows, t, n, next, ts, origin, recs, Sync.MainKeys(t.model, recs).value, Sync.Ids(recs), newRows, doomed);
  }

  /** Rows appended after those of `t`, one per new row of a diff: a fetched
      row is among them exactly when no active row of `t` holds it. */
  lemma AppendedExactly(rows: seq<Store.Versioned>, t: Store.Table, n: nat, next: int, ts: int, origin: seq<Row>,
                        recs: seq<Store.Versioned>, keys: seq<Row>, ids: seq<int>, newRows: seq<Row>, doomed: seq<int>)
    requires Diffed(t, origin, recs, keys, ids, newRows, doomed)
    requires n == |t.rows| && |rows| == n + |newRows|
    requires forall i | 0 <= i < |newRows| :: rows[n + i] == Store.Versioned(next + i, ts, None, newRows[i])
    requires forall v | v in t.rows :: |v.data| >= |t.model|
    ensures forall x | x in origin :: AppendedAt(rows, n, x) <==> !HeldActive(t.rows, t.model, x)
  {
    forall x | x in origin
      ensures AppendedAt(rows, n, x) <==> !HeldActive(t.rows, t.model, x)
    {
      assert AppendedAt(rows, n, x) <==> x in newRows by {
        if x in newRows {
          var i :| 0 <= i < |newRows| && newRows[i] == x;
          assert rows[n + i].data == x;
        }
        if AppendedAt(rows, n, x) {
          var k :| n <= k < |rows| && rows[k].data == x;
          assert rows[n + (k - n)].data == newRows[k - n];
        }
      }
      assert HeldActive(t.rows, t.model, x) <==> x in keys by {
        if x in keys {
          var j :| 0 <= j < |keys| && keys[j] == x;
          assert recs[j] in t.rows && recs[j].deleted.None? && KeyOf(t.model, recs[j]) == x;
        }
        if HeldActive(t.rows, t.model, x) {
          var v :| v in t.rows && v.deleted.None? && |v.data| >= |t.model| && KeyOf(t.model, v) == x;
          assert v in recs;
          var j :| 0 <= j < |recs| && recs[j] == v;
          assert keys[j] == x;
        }
      }
    }
  }

  /** Fetched rows are distinct and are kept by the identity transformer. */
  lemma FetchedFixed(task: Sync.Task, m: Store.Model, remote: Sync.Remote)
    requires Sync.Fetch(task, m, remote).Ok?
    ensures Distinct(Sync.Fetch(task, m, remote).value.0)
    ensures forall x | x in Sync.Fetch(task, m, remote).value.0 :: Transform.ToMain(m, Transform.Identity, x) == Ok(x)
  {
    var g := Transform.MakeGetter(m, Some(task.origin)).value;
    forall x | x in Sync.Fetch(task, m, remote).value.0
      ensures Transform.ToMain(m, Transform.Identity, x) == Ok(x)
    {
      var i :| 0 <= i < |remote.items| && Transform.ToMain(m, g, remote.items[i]) == Ok(x);
      Transform.ToMainIdempotent(m, g, remote.items[i]);
    }
  }
}
