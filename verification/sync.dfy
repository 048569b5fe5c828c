/** The synchronisation engine of `aapi_versioned/sync.py`. A task reads every
    item of one API endpoint (`fetch`), compares them with the active rows of
    one database table (`diff`), and then appends the new rows and marks the
    vanished rows deleted, logging its progress in the job log (`pull`).
    `sync_all` runs the tasks one after the other.

    The API is a parameter: the items its iteration yields, then how that
    iteration ended. The clock is a parameter too: `ts` is the reading taken
    when a pull starts and `tsEnd` the one taken when it finishes.
 */
module Sync {

  import opened Results
  import opened Datum
  import opened QueryBuilder
  import opened RowFilter
  import Store
  import JobLog
  import Transform

  type Row = seq<Value>

  /** How iterating `origin.all(**origin_kwargs)` ended. */
  datatype End =
    | Complete
    | HttpFailure(message: string)   // requests.HTTPError: caught, the fetch is partial
    | Failure(error: Error)          // any other exception: raised out of `fetch`

  /** What the API endpoint answers: the items yielded before the iteration ended. */
  datatype Remote = Remote(items: seq<Row>, end: End)

  /** One `Task`: the fields of its API model and its `main_kwargs`. The
      `origin_kwargs` only shape the API's answer, which is a parameter here. */
  datatype Task = Task(origin: seq<string>, mainKw: Kwargs)

  // ---------------------------------------------------------------------------
  // fetch
  // ---------------------------------------------------------------------------

  /** `set.add`: a row already present is not added again. Set iteration order
      is modelled as insertion order. */
  function AddTo(s: seq<Row>, x: Row): (r: seq<Row>)
    ensures forall y :: y in r <==> y in s || y == x
    ensures Distinct(s) ==> Distinct(r)
    ensures s <= r
  {
    if x in s then s else s + [x]
  }

  /** The `for item in ...: origin_main.add(to_main(item))` loop over the yielded
      items; a transformer error stops it. */
  function Collect(to: Store.Model, g: Transform.Getter, items: seq<Row>, acc: seq<Row>): (r: Result<seq<Row>>)
    ensures r.Ok? <==> forall i | 0 <= i < |items| :: Transform.ToMain(to, g, items[i]).Ok?
    ensures r.Err? ==> exists i | 0 <= i < |items| ::
      && Transform.ToMain(to, g, items[i]) == Err(r.error)
      && forall j | 0 <= j < i :: Transform.ToMain(to, g, items[j]).Ok?
    ensures r.Ok? ==> acc <= r.value
    ensures r.Ok? && Distinct(acc) ==> Distinct(r.value)
    ensures r.Ok? ==> forall x :: x in r.value <==>
      x in acc || exists i | 0 <= i < |items| :: Transform.ToMain(to, g, items[i]) == Ok(x)
    decreases |items|
  {
    if |items| == 0 then Ok(acc)
    else
      var head := Transform.ToMain(to, g, items[0]);
      if head.Err? then Err(head.error)
      else
        var r := Collect(to, g, items[1..], AddTo(acc, head.value));
        assert forall i | 1 <= i < |items| :: items[1..][i - 1] == items[i];
        if r.Err? then
          FirstErrorShift(to, g, items, r.error);
          r
        else
          OkShift(to, g, items, acc, head.value, r.value);
          r
  }

  /** The Ok case of one step of `Collect`: what holds of the tail and its head
      holds of the whole sequence. */
  lemma OkShift(to: Store.Model, g: Transform.Getter, items: seq<Row>, acc: seq<Row>, x0: Row, rows: seq<Row>)
    requires |items| > 0 && Transform.ToMain(to, g, items[0]) == Ok(x0)
    requires forall i | 0 <= i < |items[1..]| :: Transform.ToMain(to, g, items[1..][i]).Ok?
    requires forall x :: x in rows <==>
      x in AddTo(acc, x0) || exists i | 0 <= i < |items[1..]| :: Transform.ToMain(to, g, items[1..][i]) == Ok(x)
    ensures forall i | 0 <= i < |items| :: Transform.ToMain(to, g, items[i]).Ok?
    ensures forall x :: x in rows <==>
      x in acc || exists i | 0 <= i < |items| :: Transform.ToMain(to, g, items[i]) == Ok(x)
  {
    forall i | 1 <= i < |items|
      ensures Transform.ToMain(to, g, items[i]).Ok?
    {
      assert items[1..][i - 1] == items[i];
    }
    forall x
      ensures x in rows <==>
        x in acc || exists i | 0 <= i < |items| :: Transform.ToMain(to, g, items[i]) == Ok(x)
    {
      OutputShift(to, g, items, x);
    }
  }

  /** A row is produced by some item exactly when it is the head's row or is
      produced by some item of the tail. */
  lemma OutputShift(to: Store.Model, g: Transform.Getter, items: seq<Row>, x: Row)
    requires |items| > 0
    ensures (exists i | 0 <= i < |items| :: Transform.ToMain(to, g, items[i]) == Ok(x)) <==>
      Transform.ToMain(to, g, items[0]) == Ok(x) ||
      exists i | 0 <= i < |items[1..]| :: Transform.ToMain(to, g, items[1..][i]) == Ok(x)
  {
    if exists i | 0 <= i < |items[1..]| :: Transform.ToMain(to, g, items[1..][i]) == Ok(x) {
      var i :| 0 <= i < |items[1..]| && Transform.ToMain(to, g, items[1..][i]) == Ok(x);
      assert items[1..][i] == items[i + 1];
    }
    if exists i | 0 <= i < |items| :: Transform.ToMain(to, g, items[i]) == Ok(x) {
      var i :| 0 <= i < |items| && Transform.ToMain(to, g, items[i]) == Ok(x);
      if i > 0 {
        assert items[1..][i - 1] == items[i];
      }
    }
  }

  /** The first failing item of the tail, after a head that did not fail, is the first failing item. */
  lemma FirstErrorShift(to: Store.Model, g: Transform.Getter, items: seq<Row>, e: Error)
    requires |items| > 0 && Transform.ToMain(to, g, items[0]).Ok?
    requires exists i | 0 <= i < |items[1..]| ::
      && Transform.ToMain(to, g, items[1..][i]) == Err(e)
      && forall j | 0 <= j < i :: Transform.ToMain(to, g, items[1..][j]).Ok?
    ensures exists i | 0 <= i < |items| ::
      && Transform.ToMain(to, g, items[i]) == Err(e)
      && forall j | 0 <= j < i :: Transform.ToMain(to, g, items[j]).Ok?
  {
    var i :| 0 <= i < |items[1..]| && Transform.ToMain(to, g, items[1..][i]) == Err(e)
             && forall j | 0 <= j < i :: Transform.ToMain(to, g, items[1..][j]).Ok?;
    assert items[1..][i] == items[i + 1];
    forall j | 0 <= j < i + 1
      ensures Transform.ToMain(to, g, items[j]).Ok?
    {
      if j > 0 {
        assert items[1..][j - 1] == items[j];
      }
    }
  }

  /** `Task.fetch`: the distinct row tuples of every item yielded, and whether an
      HTTP error cut the iteration short. */
  function Fetch(task: Task, to: Store.Model, remote: Remote): (r: Result<(seq<Row>, bool)>)
    ensures r.Ok? <==>
      && Transform.MakeGetter(to, Some(task.origin)).Ok?
      && (forall i | 0 <= i < |remote.items| :: Transform.ToMain(to, Transform.MakeGetter(to, Some(task.origin)).value, remote.items[i]).Ok?)
      && !remote.end.Failure?
    ensures r.Ok? ==> Distinct(r.value.0) && (r.value.1 <==> remote.end.HttpFailure?)
    ensures r.Ok? ==> forall x :: x in r.value.0 <==> exists i | 0 <= i < |remote.items| ::
      Transform.ToMain(to, Transform.MakeGetter(to, Some(task.origin)).value, remote.items[i]) == Ok(x)
  {
    var g :- Transform.MakeGetter(to, Some(task.origin));
    var rows :- Collect(to, g, remote.items, []);
    match remote.end
    case Complete => Ok((rows, false))
    case HttpFailure(_) => Ok((rows, true))
    case Failure(e) => Err(e)
  }

  // ---------------------------------------------------------------------------
  // diff
  // ---------------------------------------------------------------------------

  /** `set.remove` on a row known to be present. */
  function Remove(s: seq<Row>, x: Row): (r: seq<Row>)
    ensures forall y :: y in r <==> y in s && y != x
    ensures Distinct(s) ==> Distinct(r) && |r| == if x in s then |s| - 1 else |s|
  {
    if |s| == 0 then []
    else if s[0] == x then Remove(s[1..], x)
    else
      assert Distinct(s) ==> s[0] !in s[1..];
      [s[0]] + Remove(s[1..], x)
  }

  /** The loop of `diff`: each stored row whose tuple is still among the
      remaining API rows takes it out of them; any other stored row is doomed. */
  function DiffFold(keys: seq<Row>, ids: seq<int>, remaining: seq<Row>): (r: (seq<Row>, seq<int>))
    requires |keys| == |ids|
    decreases |keys|
  {
    if |keys| == 0 then (remaining, [])
    else if keys[0] in remaining then DiffFold(keys[1..], ids[1..], Remove(remaining, keys[0]))
    else
      var (rest, doomed) := DiffFold(keys[1..], ids[1..], remaining);
      (rest, [ids[0]] + doomed)
  }

  /** The reference meaning of the doomed list: in visit order, the id of every
      stored row whose tuple the API did not return, or which repeats the tuple
      of an earlier stored row (`seen`). */
  function Doomed(keys: seq<Row>, ids: seq<int>, origin: seq<Row>, seen: seq<Row>): seq<int>
    requires |keys| == |ids|
    decreases |keys|
  {
    if |keys| == 0 then []
    else
      (if keys[0] !in origin || keys[0] in seen then [ids[0]] else [])
      + Doomed(keys[1..], ids[1..], origin, seen + [keys[0]])
  }

  /** What remains of the API rows is the API rows no stored row matched. */
  lemma {:induction false} DiffRemaining(keys: seq<Row>, ids: seq<int>, remaining: seq<Row>)
    requires |keys| == |ids| && Distinct(remaining)
    ensures Distinct(DiffFold(keys, ids, remaining).0)
    ensures forall x :: x in DiffFold(keys, ids, remaining).0 <==> x in remaining && x !in keys
    decreases |keys|
  {
    if |keys| > 0 {
      var next := if keys[0] in remaining then Remove(remaining, keys[0]) else remaining;
      DiffRemaining(keys[1..], ids[1..], next);
      assert DiffFold(keys, ids, remaining).0 == DiffFold(keys[1..], ids[1..], next).0;
      assert forall x :: x in keys <==> x == keys[0] || x in keys[1..] by {
        assert keys == [keys[0]] + keys[1..];
      }
    }
  }

  /** The fold dooms exactly the rows of the reference definition, in the same order. */
  lemma {:induction false} DiffDoomed(keys: seq<Row>, ids: seq<int>, remaining: seq<Row>, origin: seq<Row>, seen: seq<Row>)
    requires |keys| == |ids|
    requires forall x :: x in remaining <==> x in origin && x !in seen
    ensures DiffFold(keys, ids, remaining).1 == Doomed(keys, ids, origin, seen)
    decreases |keys|
  {
    if |keys| > 0 {
      var next := if keys[0] in remaining then Remove(remaining, keys[0]) else remaining;
      assert forall x :: x in next <==> x in origin && x !in seen + [keys[0]];
      DiffDoomed(keys[1..], ids[1..], next, origin, seen + [keys[0]]);
    }
  }

  /** With distinct ids, a visited row is doomed exactly when its tuple is not
      an API row or an earlier row (or `seen`) already had it. */
  lemma {:induction false} DoomedMembers(keys: seq<Row>, ids: seq<int>, origin: seq<Row>, seen: seq<Row>)
    requires |keys| == |ids| && Distinct(ids)
    ensures forall id | id in Doomed(keys, ids, origin, seen) :: id in ids
    ensures forall i | 0 <= i < |keys| ::
      ids[i] in Doomed(keys, ids, origin, seen) <==> keys[i] !in origin || keys[i] in seen || keys[i] in keys[..i]
    decreases |keys|
  {
    if |keys| > 0 {
      var rest := Doomed(keys[1..], ids[1..], origin, seen + [keys[0]]);
      assert forall i | 0 <= i < |ids| - 1 :: ids[1..][i] == ids[i + 1];
      DoomedMembers(keys[1..], ids[1..], origin, seen + [keys[0]]);
      assert ids[0] !in rest by {
        assert forall id | id in rest :: id in ids[1..];
      }
      forall i | 1 <= i < |keys|
        ensures keys[..i] == [keys[0]] + keys[1..][..i - 1]
        ensures ids[i] != ids[0]
      {
      }
    }
  }

  /** Every stored row either consumes one API row or is doomed. */
  lemma {:induction false} DiffBalance(keys: seq<Row>, ids: seq<int>, remaining: seq<Row>)
    requires |keys| == |ids| && Distinct(remaining)
    ensures |DiffFold(keys, ids, remaining).0| + |keys| == |remaining| + |DiffFold(keys, ids, remaining).1|
    decreases |keys|
  {
    if |keys| > 0 {
      var next := if keys[0] in remaining then Remove(remaining, keys[0]) else remaining;
      DiffBalance(keys[1..], ids[1..], next);
    }
  }

  /** When the stored tuples are distinct and are exactly the API rows, `diff`
      finds nothing to add and nothing to delete. */
  lemma DiffInSync(keys: seq<Row>, ids: seq<int>, origin: seq<Row>)
    requires |keys| == |ids| && Distinct(keys) && Distinct(origin)
    requires forall x :: x in keys <==> x in origin
    ensures DiffFold(keys, ids, origin) == ([], [])
  {
    var r := DiffFold(keys, ids, origin);
    DiffRemaining(keys, ids, origin);
    assert forall x :: x !in r.0;
    NoMembers(r.0);
    DiffDoomed(keys, ids, origin, origin, []);
    forall i | 0 <= i < |keys|
      ensures keys[i] in origin && keys[i] !in []
    {
      assert keys[i] in keys;
    }
    NoneDoomed(keys, ids, origin, []);
    assert r.1 == [];
  }

  /** A sequence without members is empty. */
  lemma NoMembers<T>(s: seq<T>)
    requires forall x :: x !in s
    ensures s == []
  {
    if s != [] {
      NotEmptyMember(s);
    }
  }

  /** A sequence that is not empty has its first element as a member. */
  lemma NotEmptyMember<T>(s: seq<T>)
    requires s != []
    ensures s[0] in s
  {
  }

  /** Distinct tuples that all belong to the API rows doom nothing. */
  lemma {:induction false} NoneDoomed(keys: seq<Row>, ids: seq<int>, origin: seq<Row>, seen: seq<Row>)
    requires |keys| == |ids| && Distinct(keys)
    requires forall i | 0 <= i < |keys| :: keys[i] in origin && keys[i] !in seen
    ensures Doomed(keys, ids, origin, seen) == []
    decreases |keys|
  {
    if |keys| > 0 {
      forall i | 0 <= i < |keys[1..]|
        ensures keys[1..][i] in origin && keys[1..][i] !in seen + [keys[0]]
      {
        assert keys[1..][i] == keys[i + 1];
      }
      NoneDoomed(keys[1..], ids[1..], origin, seen + [keys[0]]);
    }
  }

  /** The row tuples of the stored rows, through the identity transformer. */
  function MainKeys(m: Store.Model, recs: seq<Store.Versioned>): (r: Result<seq<Row>>)
    ensures r.Ok? <==> forall i | 0 <= i < |recs| :: |recs[i].data| >= |m|
    ensures r.Ok? ==> |r.value| == |recs| && forall i | 0 <= i < |recs| ::
      Transform.ToMain(m, Transform.Identity, recs[i].data) == Ok(r.value[i])
  {
    if |recs| == 0 then Ok([])
    else
      var key :- Transform.ToMain(m, Transform.Identity, recs[0].data);
      assert forall i | 1 <= i < |recs| :: recs[1..][i - 1] == recs[i];
      var rest :- MainKeys(m, recs[1..]);
      Ok([key] + rest)
  }

  function Ids(recs: seq<Store.Versioned>): (r: seq<int>)
    ensures |r| == |recs| && forall i | 0 <= i < |recs| :: r[i] == recs[i].id
  {
    if |recs| == 0 then [] else [recs[0].id] + Ids(recs[1..])
  }

  /** `Task.diff`: the API rows left to add, and the ids of the stored rows to
      mark deleted. A `_deleted` key in `main_kwargs` repeats a keyword argument
      of the call, and a `self` key the instance `all` is bound to. */
  function Diff(main: Store.Table, mainKw: Kwargs, origin: seq<Row>): (r: Result<(seq<Row>, seq<int>)>)
    ensures "_deleted" in Keys(mainKw) ==>
      r == Err(TypeError("Endpoint.all() got multiple values for keyword argument '_deleted'"))
    ensures "_deleted" !in Keys(mainKw) && "self" in Keys(mainKw) ==> r == Err(MultipleValues("Endpoint.all", "self"))
    ensures r.Ok? ==> main.present
    ensures r.Ok? && Distinct(origin) ==> Distinct(r.value.0)
    ensures r.Ok? ==> forall x :: x in r.value.0 ==> x in origin
    ensures r.Ok? ==> forall id | id in r.value.1 :: exists v | v in main.rows :: v.id == id && v.deleted.None?
  {
    if "_deleted" in Keys(mainKw) then Err(TypeError("Endpoint.all() got multiple values for keyword argument '_deleted'"))
    else
      assert "self" in Keys(mainKw) ==> "self" in Keys([("_deleted", Null)] + mainKw) by {
        if "self" in Keys(mainKw) {
          var i :| 0 <= i < |mainKw| && Keys(mainKw)[i] == "self";
          assert Keys([("_deleted", Null)] + mainKw)[i + 1] == "self";
        }
      }
      var recs :- Store.All(main, [("_deleted", Null)] + mainKw);
      var keys :- MainKeys(main.model, recs);
      DiffResult(main, mainKw, recs, keys, origin);
      Ok(DiffFold(keys, Ids(recs), origin))
  }

  /** For any `main_kwargs`, the exact outcome of `diff`: the rows to add are
      the (distinct) API rows that no active row the filter selects holds, and
      the ids to delete are those `Doomed` gives for those rows, in the order
      `all` returns them. */
  lemma DiffExact(main: Store.Table, mainKw: Kwargs, origin: seq<Row>)
    requires Diff(main, mainKw, origin).Ok?
    ensures Store.All(main, [("_deleted", Null)] + mainKw).Ok?
    ensures MainKeys(main.model, Store.All(main, [("_deleted", Null)] + mainKw).value).Ok?
    ensures
      var recs := Store.All(main, [("_deleted", Null)] + mainKw).value;
      var keys := MainKeys(main.model, recs).value;
      var r := Diff(main, mainKw, origin).value;
      && (Distinct(origin) ==> forall x :: x in r.0 <==> x in origin && x !in keys)
      && r.1 == Doomed(keys, Ids(recs), origin, [])
  {
    var recs := Store.All(main, [("_deleted", Null)] + mainKw).value;
    var keys := MainKeys(main.model, recs).value;
    DiffResult(main, mainKw, recs, keys, origin);
  }

  lemma DiffResult(main: Store.Table, mainKw: Kwargs, recs: seq<Store.Versioned>, keys: seq<Row>, origin: seq<Row>)
    requires Store.All(main, [("_deleted", Null)] + mainKw) == Ok(recs) && |keys| == |recs|
    ensures Distinct(origin) ==> Distinct(DiffFold(keys, Ids(recs), origin).0)
    ensures forall x :: x in DiffFold(keys, Ids(recs), origin).0 ==> x in origin
    ensures forall id | id in DiffFold(keys, Ids(recs), origin).1 :: exists v | v in main.rows :: v.id == id && v.deleted.None?
    ensures Distinct(origin) ==> forall x :: x in DiffFold(keys, Ids(recs), origin).0 <==> x in origin && x !in keys
    ensures DiffFold(keys, Ids(recs), origin).1 == Doomed(keys, Ids(recs), origin, [])
  {
    var ids := Ids(recs);
    if Distinct(origin) {
      DiffRemaining(keys, ids, origin);
    }
    DiffDoomed(keys, ids, origin, origin, []);
    RemainingWithin(keys, ids, origin);
    DoomedWithin(keys, ids, origin);
    forall id | id in DiffFold(keys, ids, origin).1
      ensures exists v | v in main.rows :: v.id == id && v.deleted.None?
    {
      var i :| 0 <= i < |ids| && ids[i] == id;
      var v := recs[i];
      assert v in recs;
      ActiveRecord(main, mainKw, v);
    }
  }

  /** A row `all(_deleted=None, ...)` returns is a stored row that is not deleted. */
  lemma ActiveRecord(main: Store.Table, mainKw: Kwargs, v: Store.Versioned)
    requires Store.All(main, [("_deleted", Null)] + mainKw).Ok?
    requires v in Store.All(main, [("_deleted", Null)] + mainKw).value
    ensures v in main.rows && v.deleted.None?
  {
    var kw := [("_deleted", Null)] + mainKw;
    var row := Store.RowMap(main.model, v);
    assert GroupHolds(row, kw);
    assert kw[0] == ("_deleted", Null);
    assert ArgHolds(row, "_deleted", Null);
    assert GroupHolds(row, [("_deleted", Null)]) by {
      assert [("_deleted", Null)][0] == ("_deleted", Null);
    }
    ActiveCondition(row);
    assert row["_deleted"] == Store.DeletedValue(v.deleted);
  }

  /** The remaining rows never leave the API rows. */
  lemma {:induction false} RemainingWithin(keys: seq<Row>, ids: seq<int>, remaining: seq<Row>)
    requires |keys| == |ids|
    ensures forall x :: x in DiffFold(keys, ids, remaining).0 ==> x in remaining
    decreases |keys|
  {
    if |keys| > 0 {
      var next := if keys[0] in remaining then Remove(remaining, keys[0]) else remaining;
      RemainingWithin(keys[1..], ids[1..], next);
    }
  }

  /** Only ids of visited rows are doomed. */
  lemma {:induction false} DoomedWithin(keys: seq<Row>, ids: seq<int>, remaining: seq<Row>)
    requires |keys| == |ids|
    ensures forall id | id in DiffFold(keys, ids, remaining).1 :: id in ids
    decreases |keys|
  {
    if |keys| > 0 {
      var next := if keys[0] in remaining then Remove(remaining, keys[0]) else remaining;
      DoomedWithin(keys[1..], ids[1..], next);
      assert forall id | id in ids[1..] :: id in ids;
    }
  }

  // ---------------------------------------------------------------------------
  // pull
  // ---------------------------------------------------------------------------

  /** The error a partial fetch leaves in the log. */
  const PartialMessage: string := "HTTP request failed. Cannot sync deletions."

  /** The error logged for an exception caught in `pull`. The file and line the
      traceback names (`location`) are given, not computed. */
  function ExceptionText(location: string, e: Error): (r: string)
    ensures |r| > 0
  {
    "Exception in " + location + ": " + e.Message()
  }

  /** How the guarded part of `pull` ended. */
  datatype Interrupt =
    | Ran(partial: bool)     // every step ran; `partial` says an HTTP error cut the fetch short
    | Threw(error: Error)    // a step raised and the rest was skipped

  /** The table and the log as the guarded part of `pull` left them, and the
      statuses its `status` calls wrote to the job's row, in order. */
  datatype Progress = Progress(main: Store.Table, log: JobLog.Log, end: Interrupt, logged: seq<string>)

  /** `if added:`: log how many rows are new, then append them. */
  function AppendPhase(main: Store.Table, log: JobLog.Log, jobId: int, ts: int, added: seq<Row>): Progress {
    if |added| == 0 then Progress(main, log, Ran(false), [])
    else
      match JobLog.Status(log, jobId, "create", [("created", Int(|added|))])
      case Err(e) => Progress(main, log, Threw(e), [])
      case Ok(log1) =>
        match Store.Add(main, ts, added)
        case Err(e) => Progress(main, log1, Threw(e), ["create"])
        case Ok(main1) => Progress(main1, log1, Ran(false), ["create"])
  }

  /** `if deleted:`: log how many rows vanished, then mark them deleted. */
  function DeletePhase(main: Store.Table, log: JobLog.Log, jobId: int, ts: int, deleted: seq<int>): Progress {
    if |deleted| == 0 then Progress(main, log, Ran(false), [])
    else
      match JobLog.Status(log, jobId, "delete", [("deleted", Int(|deleted|))])
      case Err(e) => Progress(main, log, Threw(e), [])
      case Ok(log1) =>
        match Store.Delete(main, ts, deleted)
        case Err(e) => Progress(main, log1, Threw(e), ["delete"])
        case Ok(main1) => Progress(main1, log1, Ran(false), ["delete"])
  }

  /** The guarded part of `pull`: fetch, diff, then append and delete, logging
      each stage. After a partial fetch nothing is deleted. */
  function Work(task: Task, main: Store.Table, log: JobLog.Log, jobId: int, remote: Remote, ts: int): (r: Progress)
    ensures r.end.Ran? ==> Fetch(task, main.model, remote).Ok? && (r.end.partial <==> remote.end.HttpFailure?)
    ensures Evolves(main, r.main, ts)
    ensures !remote.end.Complete? ==> Undeleted(main, r.main)
  {
    StepsEvolve(main, ts, [], []);
    match JobLog.Status(log, jobId, "fetch", [])
    case Err(e) => Progress(main, log, Threw(e), [])
    case Ok(log1) =>
      var r := Reconcile(task, main, log1, jobId, remote, ts);
      r.(logged := ["fetch"] + r.logged)
  }

  /** `Work` once the fetch stage is logged. */
  function Reconcile(task: Task, main: Store.Table, log: JobLog.Log, jobId: int, remote: Remote, ts: int): (r: Progress)
    ensures r.end.Ran? ==> Fetch(task, main.model, remote).Ok? && (r.end.partial <==> remote.end.HttpFailure?)
    ensures Evolves(main, r.main, ts)
    ensures !remote.end.Complete? ==> Undeleted(main, r.main)
  {
    StepsEvolve(main, ts, [], []);
    match Fetch(task, main.model, remote)
    case Err(e) => Progress(main, log, Threw(e), [])
    case Ok(fetched) =>
      var (added, partial) := fetched;
      match JobLog.Status(log, jobId, "sync", [])
      case Err(e) => Progress(main, log, Threw(e), [])
      case Ok(log2) =>
        match Diff(main, task.mainKw, added)
        case Err(e) => Progress(main, log2, Threw(e), ["sync"])
        case Ok(diffed) =>
          var a := Apply(main, log2, jobId, ts, diffed.0, if partial then [] else diffed.1, partial);
          a.(logged := ["sync"] + a.logged)
  }

  /** The append phase, then the delete phase unless the first one raised. */
  function Apply(main: Store.Table, log: JobLog.Log, jobId: int, ts: int, newRows: seq<Row>, doomed: seq<int>, partial: bool): (r: Progress)
    ensures r.end.Ran? ==> r.end.partial == partial
    ensures Evolves(main, r.main, ts)
    ensures doomed == [] ==> Undeleted(main, r.main)
  {
    var created := AppendPhase(main, log, jobId, ts, newRows);
    PhasesEvolve(main, log, jobId, ts, newRows, doomed);
    if created.end.Threw? then created
    else
      var gone := DeletePhase(created.main, created.log, jobId, ts, doomed);
      Progress(gone.main, gone.log, if gone.end.Threw? then gone.end else Ran(partial), created.logged + gone.logged)
  }

  /** What the guarded part of `pull` decides before it writes anything: the
      rows to append, the ids to mark deleted (none after a partial fetch),
      and whether the fetch was partial. An `Err` is the exception raised by
      `fetch` or `diff`. */
  function Plan(task: Task, main: Store.Table, remote: Remote): (r: Result<(seq<Row>, seq<int>, bool)>)
    ensures r.Ok? <==> Fetch(task, main.model, remote).Ok? && Diff(main, task.mainKw, Fetch(task, main.model, remote).value.0).Ok?
    ensures r.Ok? ==> (r.value.2 <==> remote.end.HttpFailure?) && (r.value.2 ==> r.value.1 == [])
    ensures r.Ok? ==>
      var diffed := Diff(main, task.mainKw, Fetch(task, main.model, remote).value.0).value;
      r.value.0 == diffed.0 && (!r.value.2 ==> r.value.1 == diffed.1)
    ensures r.Ok? ==> forall x | x in r.value.0 :: |x| == |main.model|
  {
    var fetched :- Fetch(task, main.model, remote);
    var diffed :- Diff(main, task.mainKw, fetched.0);
    FetchedWidth(task, main.model, remote);
    Ok((diffed.0, if fetched.1 then [] else diffed.1, fetched.1))
  }

  /** Every fetched row has one value per field of the database model. */
  lemma FetchedWidth(task: Task, m: Store.Model, remote: Remote)
    requires Fetch(task, m, remote).Ok?
    ensures forall x | x in Fetch(task, m, remote).value.0 :: |x| == |m|
  {
    var g := Transform.MakeGetter(m, Some(task.origin)).value;
    forall x | x in Fetch(task, m, remote).value.0
      ensures |x| == |m|
    {
      var i :| 0 <= i < |remote.items| && Transform.ToMain(m, g, remote.items[i]) == Ok(x);
    }
  }

  /** The statuses the append and delete phases write when nothing raises. */
  function PhaseStatuses(newRows: seq<Row>, doomed: seq<int>): seq<string> {
    (if newRows == [] then [] else ["create"]) + (if doomed == [] then [] else ["delete"])
  }

  /** What a pull may do to a table: create it, append rows created at `ts`,
      and mark active rows deleted at `ts`. Nothing else changes. */
  predicate Evolves(before: Store.Table, after: Store.Table, ts: int) {
    && after.name == before.name && after.model == before.model
    && (before.present ==> after.present)
    && |before.rows| <= |after.rows|
    && before.nextId <= after.nextId
    && (forall i | 0 <= i < |before.rows| ::
          || after.rows[i] == before.rows[i]
          || (before.rows[i].deleted.None? && after.rows[i] == before.rows[i].(deleted := Some(ts))))
    && (forall i | |before.rows| <= i < |after.rows| :: after.rows[i].created == ts)
  }

  /** No row that existed before was marked deleted. */
  predicate Undeleted(before: Store.Table, after: Store.Table) {
    |before.rows| <= |after.rows| && after.rows[..|before.rows|] == before.rows
  }

  lemma EvolvesTransitive(a: Store.Table, b: Store.Table, c: Store.Table, ts: int)
    requires Evolves(a, b, ts) && Evolves(b, c, ts)
    ensures Evolves(a, c, ts)
  {
    forall i | 0 <= i < |a.rows|
      ensures || c.rows[i] == a.rows[i]
              || (a.rows[i].deleted.None? && c.rows[i] == a.rows[i].(deleted := Some(ts)))
    {
      if b.rows[i] != a.rows[i] {
        assert b.rows[i].deleted == Some(ts);
      }
    }
  }

  /** `add` and `delete` each evolve the table; deleting nothing changes no row. */
  lemma StepsEvolve(t: Store.Table, ts: int, items: seq<Row>, ids: seq<int>)
    ensures Evolves(t, t, ts) && Undeleted(t, t)
    ensures Store.Add(t, ts, items).Ok? ==>
      Evolves(t, Store.Add(t, ts, items).value, ts) && Undeleted(t, Store.Add(t, ts, items).value)
    ensures Store.Delete(t, ts, ids).Ok? ==> Evolves(t, Store.Delete(t, ts, ids).value, ts)
    ensures Store.Delete(t, ts, ids).Ok? && ids == [] ==> Undeleted(t, Store.Delete(t, ts, ids).value)
  {
    assert t.rows[..|t.rows|] == t.rows;
    if Store.Delete(t, ts, ids).Ok? {
      var u := Store.Delete(t, ts, ids).value;
      forall i | 0 <= i < |t.rows|
        ensures || u.rows[i] == t.rows[i]
                || (t.rows[i].deleted.None? && u.rows[i] == t.rows[i].(deleted := Some(ts)))
      {
        if u.rows[i] != t.rows[i] {
          assert u.rows[i] == u.rows[i].(deleted := t.rows[i].deleted).(deleted := Some(ts));
        }
      }
      if ids == [] {
        assert u.rows == t.rows;
        assert u.rows[..|t.rows|] == t.rows;
      }
    }
  }

  /** The append and delete phases together evolve the table, and delete nothing when given no ids. */
  lemma PhasesEvolve(main: Store.Table, log: JobLog.Log, jobId: int, ts: int, newRows: seq<Row>, doomed: seq<int>)
    ensures Evolves(main, AppendPhase(main, log, jobId, ts, newRows).main, ts)
    ensures Undeleted(main, AppendPhase(main, log, jobId, ts, newRows).main)
    ensures
      var created := AppendPhase(main, log, jobId, ts, newRows);
      var gone := DeletePhase(created.main, created.log, jobId, ts, doomed);
      && Evolves(main, gone.main, ts)
      && (doomed == [] ==> Undeleted(main, gone.main))
  {
    var created := AppendPhase(main, log, jobId, ts, newRows);
    StepsEvolve(main, ts, newRows, doomed);
    StepsEvolve(created.main, ts, newRows, doomed);
    var gone := DeletePhase(created.main, created.log, jobId, ts, doomed);
    EvolvesTransitive(main, created.main, gone.main, ts);
    if doomed == [] {
      assert gone.main == created.main;
    }
  }

  /** How a pull ended. */
  datatype Outcome =
    | Skipped(error: Error)                // creating the table or starting the job raised; nothing was logged
    | Finished(jobId: int, message: string)  // the job row ended `done` (no message) or `failed` (with it)
    | Raised(jobId: int, error: Error)     // the final status update raised out of `pull`

  /** What a pull leaves: the table, the log, how it ended, and the statuses
      its `status` calls wrote to the job's row, in order. */
  datatype Pulled = Pulled(main: Store.Table, log: JobLog.Log, outcome: Outcome, logged: seq<string>)

  /** The `error` string of `pull` once the guarded part has ended; a caught
      exception replaces the partial-fetch message. */
  function ErrorText(end: Interrupt, location: string): (r: string)
    ensures r == "" <==> end == Ran(false)
  {
    match end
    case Threw(e) => ExceptionText(location, e)
    case Ran(partial) => if partial then PartialMessage else ""
  }

  function FinalStatus(error: string): string {
    if error == "" then "done" else "failed"
  }

  function FinalKwargs(error: string, tsEnd: int): Kwargs {
    if error == "" then [("finished", Stamp(tsEnd))] else [("finished", Stamp(tsEnd)), ("error", Str(error))]
  }

  /** `Task.pull`: create the table, open a job in the log, run the guarded
      part, and close the job as `done` or `failed`. `ts` is the clock reading
      at the start and `tsEnd` the one at the end. */
  function Pull(task: Task, main: Store.Table, log: JobLog.Log, remote: Remote, ts: int, tsEnd: int, location: string): (r: Pulled)
    ensures r.outcome.Skipped? <==> Store.QueryCreateTable(main.name, main.model).Err? || !log.present
    ensures r.outcome.Skipped? ==> r.log == log && r.main.rows == main.rows && r.logged == []
    ensures r.outcome.Finished? ==> |r.logged| > 0 && r.logged[|r.logged| - 1] == FinalStatus(r.outcome.message)
    ensures r.outcome.Finished? && r.outcome.message == "" ==> remote.end.Complete?
    ensures Evolves(main, r.main, ts)
    ensures !remote.end.Complete? ==> Undeleted(main, r.main)
  {
    match Store.EnsureTable(main)
    case Err(e) => StepsEvolve(main, ts, [], []); Pulled(main, log, Skipped(e), [])
    case Ok(main1) =>
      StepsEvolve(main, ts, [], []);
      match JobLog.Start(log, main.name, ts)
      case Err(e) => Pulled(main1, log, Skipped(e), [])
      case Ok(started) =>
        var (log1, jobId) := started;
        var w := Work(task, main1, log1, jobId, remote, ts);
        EvolvesTransitive(main, main1, w.main, ts);
        var error := ErrorText(w.end, location);
        match JobLog.Status(w.log, jobId, FinalStatus(error), FinalKwargs(error, tsEnd))
        case Err(e) => Pulled(w.main, w.log, Raised(jobId, e), w.logged)
        case Ok(log2) => Pulled(w.main, log2, Finished(jobId, error), w.logged + [FinalStatus(error)])
  }

  // ---------------------------------------------------------------------------
  // sync_all
  // ---------------------------------------------------------------------------

  /** One task of `Sync` with the table it writes, what its API answers, and
      the two clock readings of its pull. */
  datatype Job = Job(task: Task, main: Store.Table, remote: Remote, ts: int, tsEnd: int)

  datatype Synced = Synced(tables: seq<Store.Table>, log: JobLog.Log, outcomes: seq<Outcome>)

  /** `Sync.sync_all`: pull every task in declaration order on the shared log.
      An exception out of a pull ends the loop. */
  method SyncAll(jobs: seq<Job>, log: JobLog.Log, location: string) returns (r: Synced)
    ensures |r.tables| == |r.outcomes| <= |jobs|
    ensures forall k | 0 <= k < |r.outcomes| - 1 :: !r.outcomes[k].Raised?
    ensures |r.outcomes| < |jobs| ==> 0 < |r.outcomes| && r.outcomes[|r.outcomes| - 1].Raised?
    ensures AllEvolve(jobs, r.tables)
    ensures JobLog.Valid(log) ==> JobLog.Valid(r.log) && |r.outcomes| == |jobs|
  {
    var tables: seq<Store.Table> := [];
    var outcomes: seq<Outcome> := [];
    var current := log;
    var k := 0;
    while k < |jobs|
      invariant k == |tables| == |outcomes| <= |jobs|
      invariant forall i | 0 <= i < k :: !outcomes[i].Raised?
      invariant AllEvolve(jobs, tables)
      invariant JobLog.Valid(log) ==> JobLog.Valid(current)
    {
      var job := jobs[k];
      var p := PullJob(job, current, location);
      EvolveEach(jobs, tables, p.main);
      tables := tables + [p.main];
      outcomes := outcomes + [p.outcome];
      current := p.log;
      if p.outcome.Raised? {
        return Synced(tables, current, outcomes);
      }
      k := k + 1;
    }
    return Synced(tables, current, outcomes);
  }

  /** One pull of `sync_all`'s loop, seen from the loop: the table evolves, and
      a valid log stays valid without an exception escaping. */
  function PullJob(job: Job, log: JobLog.Log, location: string): (p: Pulled)
    ensures Evolves(job.main, p.main, job.ts)
    ensures JobLog.Valid(log) ==> JobLog.Valid(p.log) && !p.outcome.Raised?
  {
    if JobLog.Valid(log) then
      PullKeepsLogValid(job.task, job.main, log, job.remote, job.ts, job.tsEnd, location);
      Pull(job.task, job.main, log, job.remote, job.ts, job.tsEnd, location)
    else
      Pull(job.task, job.main, log, job.remote, job.ts, job.tsEnd, location)
  }

  /** Each table the loop has pulled evolved from the job's table at the job's start time. */
  predicate AllEvolve(jobs: seq<Job>, tables: seq<Store.Table>) {
    |tables| <= |jobs| && forall k | 0 <= k < |tables| :: Evolves(jobs[k].main, tables[k], jobs[k].ts)
  }

  lemma EvolveEach(jobs: seq<Job>, tables: seq<Store.Table>, next: Store.Table)
    requires AllEvolve(jobs, tables) && |tables| < |jobs|
    requires Evolves(jobs[|tables|].main, next, jobs[|tables|].ts)
    ensures AllEvolve(jobs, tables + [next])
  {
    assert forall k | 0 <= k < |tables| :: (tables + [next])[k] == tables[k];
  }

  // ---------------------------------------------------------------------------
  // What a pull writes to the log
  // ---------------------------------------------------------------------------

  /** The log row a pull opened: appended after the rows of `before`, which
      are kept, with the next id, the task's target and the start time, the
      given `created` and `deleted` counts, and as yet no error and no finish
      time. */
  predicate Tracks(before: JobLog.Log, after: JobLog.Log, jobId: int, target: string, ts: int, created: int, deleted: int) {
    && after.present
    && jobId == before.nextId && after.nextId == before.nextId + 1
    && |after.items| == |before.items| + 1
    && after.items[..|before.items|] == before.items
    && var row := after.items[|before.items|];
       && row.id == jobId && row.target == target && row.started == Some(ts) && row.error.None? && row.finished.None?
       && row.created == created && row.deleted == deleted
  }

  /** A count column after a `status` call with at most one keyword: the value
      the keyword assigns it, else what it held. */
  function CountAfter(column: string, was: int, kw: Kwargs): int {
    if |kw| == 1 && kw[0].0 == column && kw[0].1.Int? then kw[0].1.i else was
  }

  /** A progress update of the job's row succeeds, keeps what `Tracks` says,
      and sets the count it names. */
  lemma StatusTracks(before: JobLog.Log, log: JobLog.Log, jobId: int, target: string, ts: int, c: int, d: int,
                     status: string, kw: Kwargs)
    requires JobLog.Valid(before) && Tracks(before, log, jobId, target, ts, c, d)
    requires JobLog.ProgressUpdate(kw) && |kw| <= 1 && forall i | 0 <= i < |kw| :: kw[i].0 == "created" || kw[i].0 == "deleted"
    ensures JobLog.Status(log, jobId, status, kw).Ok?
    ensures Tracks(before, JobLog.Status(log, jobId, status, kw).value, jobId, target, ts,
                   CountAfter("created", c, kw), CountAfter("deleted", d, kw))
  {
    var n := |before.items|;
    assert log.items[n].id == jobId;
    JobLog.ProgressRow(log, jobId, status, kw, n);
    var after := JobLog.Status(log, jobId, status, kw).value;
    forall i | 0 <= i < n
      ensures after.items[i] == before.items[i]
    {
      assert log.items[i] == before.items[i];
    }
    assert after.items[..n] == before.items;
    assert forall i | 0 <= i < |kw| :: kw[i].1.Int? by {
      forall i | 0 <= i < |kw| ensures kw[i].1.Int? {
        assert JobLog.Settable(kw[i].0, kw[i].1);
      }
    }
    CountCells(log.items[n], after.items[n], kw);
  }

  /** The cells a one-count progress update writes and keeps, read back as
      fields of the row. */
  lemma CountCells(was: JobLog.LogItem, row: JobLog.LogItem, kw: Kwargs)
    requires |kw| <= 1 && (forall i | 0 <= i < |kw| :: kw[i].1.Int?) && forall i | 0 <= i < |kw| :: kw[i].0 == "created" || kw[i].0 == "deleted"
    requires forall k | 0 <= k < |kw| :: JobLog.Cell(row, kw[k].0) == kw[k].1
    requires forall c | c in JobLog.LogFields && c != "status" && c !in Keys(kw) :: JobLog.Cell(row, c) == JobLog.Cell(was, c)
    ensures row.id == was.id && row.target == was.target && row.error == was.error
    ensures row.started == was.started && row.finished == was.finished
    ensures row.created == CountAfter("created", was.created, kw) && row.deleted == CountAfter("deleted", was.deleted, kw)
  {
    if |kw| == 0 {
      assert Keys(kw) == [];
      KeptCell(was, row, kw, "created");
      KeptCell(was, row, kw, "deleted");
    } else {
      assert Keys(kw) == [kw[0].0];
      var other := if kw[0].0 == "created" then "deleted" else "created";
      KeptCell(was, row, kw, other);
      assert JobLog.Cell(row, kw[0].0) == kw[0].1;
    }
    CellFields(was, row);
    CountIdentity(was, row, kw);
  }

  /** An update naming at most one count keeps the job's identity, error and times. */
  lemma CountIdentity(was: JobLog.LogItem, row: JobLog.LogItem, kw: Kwargs)
    requires forall c | c in JobLog.LogFields && c != "status" && c !in Keys(kw) :: JobLog.Cell(row, c) == JobLog.Cell(was, c)
    requires Keys(kw) == [] || Keys(kw) == ["created"] || Keys(kw) == ["deleted"]
    ensures row.id == was.id && row.target == was.target && row.error == was.error
    ensures row.started == was.started && row.finished == was.finished
  {
    KeptCell(was, row, kw, "id");
    KeptCell(was, row, kw, "target");
    KeptCell(was, row, kw, "error");
    KeptCell(was, row, kw, "started");
    KeptCell(was, row, kw, "finished");
    CellFields(was, row);
  }

  /** A log row's fields can be read back from its cells. */
  lemma CellFields(a: JobLog.LogItem, b: JobLog.LogItem)
    ensures JobLog.Cell(a, "id") == JobLog.Cell(b, "id") ==> a.id == b.id
    ensures JobLog.Cell(a, "target") == JobLog.Cell(b, "target") ==> a.target == b.target
    ensures JobLog.Cell(a, "error") == JobLog.Cell(b, "error") ==> a.error == b.error
    ensures JobLog.Cell(a, "created") == JobLog.Cell(b, "created") ==> a.created == b.created
    ensures JobLog.Cell(a, "deleted") == JobLog.Cell(b, "deleted") ==> a.deleted == b.deleted
    ensures JobLog.Cell(a, "started") == JobLog.Cell(b, "started") ==> a.started == b.started
    ensures JobLog.Cell(a, "finished") == JobLog.Cell(b, "finished") ==> a.finished == b.finished
    ensures JobLog.Cell(a, "created") == Int(a.created) && JobLog.Cell(a, "deleted") == Int(a.deleted)
  {
  }

  /** A cell the update does not name keeps its value. */
  lemma KeptCell(was: JobLog.LogItem, row: JobLog.LogItem, kw: Kwargs, c: string)
    requires forall c | c in JobLog.LogFields && c != "status" && c !in Keys(kw) :: JobLog.Cell(row, c) == JobLog.Cell(was, c)
    requires c in JobLog.LogFields && c != "status" && c !in Keys(kw)
    ensures JobLog.Cell(row, c) == JobLog.Cell(was, c)
  {
  }

  /** On a tracked row of an existing table the append phase cannot raise: it
      appends the rows, logs `create` with their number when there are any,
      and keeps the row tracked. */
  lemma AppendOutcome(before: JobLog.Log, log: JobLog.Log, jobId: int, target: string, ts: int, c: int, d: int,
                      main: Store.Table, newRows: seq<Row>)
    requires JobLog.Valid(before) && Tracks(before, log, jobId, target, ts, c, d)
    requires main.present && forall x | x in newRows :: |x| == |main.model|
    ensures Store.Add(main, ts, newRows).Ok?
    ensures
      var a := AppendPhase(main, log, jobId, ts, newRows);
      && a.end == Ran(false) && a.main == Store.Add(main, ts, newRows).value
      && a.logged == (if newRows == [] then [] else ["create"])
      && Tracks(before, a.log, jobId, target, ts, if newRows == [] then c else |newRows|, d)
  {
    assert forall i | 0 <= i < |newRows| :: newRows[i] in newRows;
    if |newRows| == 0 {
      Store.AddNothing(main, ts);
    } else {
      JobLog.ProgressShapes(|newRows|, 0, "");
      StatusTracks(before, log, jobId, target, ts, c, d, "create", [("created", Int(|newRows|))]);
    }
  }

  /** On a tracked row of an existing table the delete phase cannot raise: it
      marks the rows, logs `delete` with their number when there are any, and
      keeps the row tracked. */
  lemma DeleteOutcome(before: JobLog.Log, log: JobLog.Log, jobId: int, target: string, ts: int, c: int, d: int,
                      main: Store.Table, doomed: seq<int>)
    requires JobLog.Valid(before) && Tracks(before, log, jobId, target, ts, c, d)
    requires main.present
    ensures Store.Delete(main, ts, doomed).Ok?
    ensures
      var g := DeletePhase(main, log, jobId, ts, doomed);
      && g.end == Ran(false) && g.main == Store.Delete(main, ts, doomed).value
      && g.logged == (if doomed == [] then [] else ["delete"])
      && Tracks(before, g.log, jobId, target, ts, c, if doomed == [] then d else |doomed|)
  {
    if |doomed| == 0 {
      Store.DeleteNothing(main, ts);
    } else {
      JobLog.ProgressShapes(|doomed|, 0, "");
      StatusTracks(before, log, jobId, target, ts, c, d, "delete", [("deleted", Int(|doomed|))]);
    }
  }

  /** Both phases together: the table is the appended-to, then deleted-from
      one, and the row holds both counts. */
  lemma ApplyOutcome(before: JobLog.Log, log: JobLog.Log, jobId: int, target: string, ts: int,
                     main: Store.Table, newRows: seq<Row>, doomed: seq<int>, partial: bool)
    requires JobLog.Valid(before) && Tracks(before, log, jobId, target, ts, 0, 0)
    requires main.present && forall x | x in newRows :: |x| == |main.model|
    ensures Store.Add(main, ts, newRows).Ok? && Store.Delete(Store.Add(main, ts, newRows).value, ts, doomed).Ok?
    ensures
      var a := Apply(main, log, jobId, ts, newRows, doomed, partial);
      && a.end == Ran(partial)
      && a.main == Store.Delete(Store.Add(main, ts, newRows).value, ts, doomed).value
      && a.logged == PhaseStatuses(newRows, doomed)
      && Tracks(before, a.log, jobId, target, ts, |newRows|, |doomed|)
  {
    AppendOutcome(before, log, jobId, target, ts, 0, 0, main, newRows);
    var created := AppendPhase(main, log, jobId, ts, newRows);
    DeleteOutcome(before, created.log, jobId, target, ts, |newRows|, 0, created.main, doomed);
  }

  /** What the guarded part of `pull` did, as its plan foretells: when `fetch`
      or `diff` raised, the exception, the table untouched, the statuses
      `lead` and zero counts; otherwise the plan carried out, the statuses
      `lead` and one per phase that ran, and the phases' counts. */
  predicate Reports(w: Progress, plan: Result<(seq<Row>, seq<int>, bool)>, main: Store.Table, lead: seq<string>,
                    before: JobLog.Log, jobId: int, target: string, ts: int) {
    match plan
    case Err(e) =>
      && w.end == Threw(e) && w.main == main && w.logged == lead
      && Tracks(before, w.log, jobId, target, ts, 0, 0)
    case Ok(p) =>
      && w.end == Ran(p.2)
      && Store.Add(main, ts, p.0).Ok? && Store.Delete(Store.Add(main, ts, p.0).value, ts, p.1).Ok?
      && w.main == Store.Delete(Store.Add(main, ts, p.0).value, ts, p.1).value
      && w.logged == lead + PhaseStatuses(p.0, p.1)
      && Tracks(before, w.log, jobId, target, ts, |p.0|, |p.1|)
  }

  /** Logging one more status in front keeps the report. */
  lemma ReportsLed(w: Progress, plan: Result<(seq<Row>, seq<int>, bool)>, main: Store.Table, lead: seq<string>,
                   before: JobLog.Log, jobId: int, target: string, ts: int, status: string)
    requires Reports(w, plan, main, lead, before, jobId, target, ts)
    ensures Reports(w.(logged := [status] + w.logged), plan, main, [status] + lead, before, jobId, target, ts)
  {
    if plan.Ok? {
      var p := plan.value;
      assert [status] + (lead + PhaseStatuses(p.0, p.1)) == [status] + lead + PhaseStatuses(p.0, p.1);
    }
  }

  /** The statuses logged before the phases: `sync` once the fetch returned. */
  function SyncLead(task: Task, main: Store.Table, remote: Remote): seq<string> {
    if Fetch(task, main.model, remote).Ok? then ["sync"] else []
  }

  /** `Reconcile` on a tracked row of an existing table reports its plan. */
  lemma ReconcileOutcome(task: Task, main: Store.Table, before: JobLog.Log, log: JobLog.Log, jobId: int,
                         target: string, remote: Remote, ts: int)
    requires JobLog.Valid(before) && Tracks(before, log, jobId, target, ts, 0, 0) && main.present
    ensures Reports(Reconcile(task, main, log, jobId, remote, ts), Plan(task, main, remote), main,
                    SyncLead(task, main, remote), before, jobId, target, ts)
  {
    if Fetch(task, main.model, remote).Ok? {
      var (added, partial) := Fetch(task, main.model, remote).value;
      JobLog.ProgressShapes(0, 0, "");
      StatusTracks(before, log, jobId, target, ts, 0, 0, "sync", []);
      var log2 := JobLog.Status(log, jobId, "sync", []).value;
      if Diff(main, task.mainKw, added).Ok? {
        var (newRows, doomed) := Diff(main, task.mainKw, added).value;
        var p := Plan(task, main, remote).value;
        assert p == (newRows, if partial then [] else doomed, partial);
        ApplyOutcome(before, log2, jobId, target, ts, main, newRows, p.1, partial);
      }
    }
  }

  /** The guarded part of `pull` on a tracked row of an existing table reports
      its plan, after the `fetch` status. */
  lemma WorkOutcome(task: Task, main: Store.Table, before: JobLog.Log, log: JobLog.Log, jobId: int,
                    target: string, remote: Remote, ts: int)
    requires JobLog.Valid(before) && Tracks(before, log, jobId, target, ts, 0, 0) && main.present
    ensures Reports(Work(task, main, log, jobId, remote, ts), Plan(task, main, remote), main,
                    ["fetch"] + SyncLead(task, main, remote), before, jobId, target, ts)
  {
    JobLog.ProgressShapes(0, 0, "");
    StatusTracks(before, log, jobId, target, ts, 0, 0, "fetch", []);
    var log1 := JobLog.Status(log, jobId, "fetch", []).value;
    assert CountAfter("created", 0, []) == 0 && CountAfter("deleted", 0, []) == 0;
    ReconcileOutcome(task, main, before, log1, jobId, target, remote, ts);
    var r := Reconcile(task, main, log1, jobId, remote, ts);
    ReportsLed(r, Plan(task, main, remote), main, SyncLead(task, main, remote), before, jobId, target, ts, "fetch");
  }

  /** The job's row once `pull` has closed it: still after the kept rows of
      `before`, with its id, target and start time, the counts the phases
      logged, the final status, the finish time, and the error exactly when
      there is one. */
  predicate Closed(before: JobLog.Log, after: JobLog.Log, jobId: int, target: string, ts: int, tsEnd: int, error: string,
                   created: int, deleted: int) {
    && after.present
    && jobId == before.nextId && after.nextId == before.nextId + 1
    && |after.items| == |before.items| + 1
    && after.items[..|before.items|] == before.items
    && var row := after.items[|before.items|];
       && row.id == jobId && row.target == target && row.started == Some(ts)
       && row.created == created && row.deleted == deleted
       && row.status == FinalStatus(error) && row.finished == Some(tsEnd)
       && row.error == (if error == "" then None else Some(error))
  }

  /** The closing update of `pull` succeeds on a tracked row and closes it. */
  lemma FinalRow(before: JobLog.Log, log: JobLog.Log, jobId: int, target: string, ts: int, c: int, d: int,
                 tsEnd: int, error: string)
    requires JobLog.Valid(before) && Tracks(before, log, jobId, target, ts, c, d)
    ensures JobLog.Status(log, jobId, FinalStatus(error), FinalKwargs(error, tsEnd)).Ok?
    ensures Closed(before, JobLog.Status(log, jobId, FinalStatus(error), FinalKwargs(error, tsEnd)).value,
                   jobId, target, ts, tsEnd, error, c, d)
  {
    var kw := FinalKwargs(error, tsEnd);
    JobLog.ProgressShapes(0, tsEnd, error);
    var n := |before.items|;
    assert log.items[n].id == jobId;
    JobLog.ProgressRow(log, jobId, FinalStatus(error), kw, n);
    var after := JobLog.Status(log, jobId, FinalStatus(error), kw).value;
    ClosedByCells(before, log, after, jobId, target, ts, c, d, tsEnd, error);
  }

  /** `Closed`, read off the cells the closing update wrote and kept. */
  lemma ClosedByCells(before: JobLog.Log, log: JobLog.Log, after: JobLog.Log, jobId: int, target: string, ts: int,
                      c: int, d: int, tsEnd: int, error: string)
    requires JobLog.Valid(before) && Tracks(before, log, jobId, target, ts, c, d)
    requires after.present && after.nextId == log.nextId && |after.items| == |log.items|
    requires forall i | 0 <= i < |log.items| && log.items[i].id != jobId :: after.items[i] == log.items[i]
    requires
      var kw := FinalKwargs(error, tsEnd);
      var row := after.items[|before.items|];
      && row.status == FinalStatus(error)
      && (forall k | 0 <= k < |kw| :: JobLog.Cell(row, kw[k].0) == kw[k].1)
      && (forall c | c in JobLog.LogFields && c != "status" && c !in Keys(kw) :: JobLog.Cell(row, c) == JobLog.Cell(log.items[|before.items|], c))
    ensures Closed(before, after, jobId, target, ts, tsEnd, error, c, d)
  {
    var n := |before.items|;
    KeptBefore(before, log, after, jobId);
    ClosedRow(log.items[n], after.items[n], tsEnd, error);
  }

  /** The rows of `before` other than the job's keep their place through an
      update of the job's row. */
  lemma KeptBefore(before: JobLog.Log, log: JobLog.Log, after: JobLog.Log, jobId: int)
    requires JobLog.Valid(before) && jobId == before.nextId
    requires |log.items| == |before.items| + 1 && log.items[..|before.items|] == before.items
    requires |after.items| == |log.items|
    requires forall i | 0 <= i < |log.items| && log.items[i].id != jobId :: after.items[i] == log.items[i]
    ensures after.items[..|before.items|] == before.items
  {
    var n := |before.items|;
    forall i | 0 <= i < n
      ensures after.items[i] == before.items[i]
    {
      assert log.items[i] == before.items[i];
    }
  }

  /** The closed row keeps the identity and counts of the tracked row and
      takes the finish time and error the closing update names. */
  lemma ClosedRow(was: JobLog.LogItem, row: JobLog.LogItem, tsEnd: int, error: string)
    requires
      var kw := FinalKwargs(error, tsEnd);
      && (forall k | 0 <= k < |kw| :: JobLog.Cell(row, kw[k].0) == kw[k].1)
      && (forall c | c in JobLog.LogFields && c != "status" && c !in Keys(kw) :: JobLog.Cell(row, c) == JobLog.Cell(was, c))
    ensures row.id == was.id && row.target == was.target && row.started == was.started
    ensures row.created == was.created && row.deleted == was.deleted
    ensures row.finished == Some(tsEnd) && row.error == (if error == "" then was.error else Some(error))
  {
    var kw := FinalKwargs(error, tsEnd);
    assert JobLog.Cell(row, "finished") == Stamp(tsEnd) by {
      assert kw[0] == ("finished", Stamp(tsEnd));
    }
    assert Keys(kw) == if error == "" then ["finished"] else ["finished", "error"];
    KeptIdentity(was, row, kw);
    if error == "" {
      KeptCell(was, row, kw, "error");
      CellFields(row, was);
    } else {
      assert JobLog.Cell(row, "error") == Str(error) by {
        assert kw[1] == ("error", Str(error));
      }
    }
  }

  /** An update naming only `finished` and `error` keeps the job's identity
      and counts. */
  lemma KeptIdentity(was: JobLog.LogItem, row: JobLog.LogItem, kw: Kwargs)
    requires forall c | c in JobLog.LogFields && c != "status" && c !in Keys(kw) :: JobLog.Cell(row, c) == JobLog.Cell(was, c)
    requires Keys(kw) == ["finished"] || Keys(kw) == ["finished", "error"]
    ensures row.id == was.id && row.target == was.target && row.started == was.started
    ensures row.created == was.created && row.deleted == was.deleted
  {
    KeptCell(was, row, kw, "id");
    KeptCell(was, row, kw, "target");
    KeptCell(was, row, kw, "started");
    KeptCell(was, row, kw, "created");
    KeptCell(was, row, kw, "deleted");
    CellFields(row, was);
  }

  /** The counts a pull leaves in the job's row: what `create` and `delete`
      logged, zero when `fetch` or `diff` raised. */
  function Counts(plan: Result<(seq<Row>, seq<int>, bool)>): (int, int) {
    if plan.Ok? then (|plan.value.0|, |plan.value.1|) else (0, 0)
  }

  /** Unless it was skipped, a pull on a valid log never raises: it appends one
      row for the job, leaves every other row alone, and closes the row with
      the outcome's status, finish time and error and the counts it logged. */
  lemma PullLogsOutcome(task: Task, main: Store.Table, log: JobLog.Log, remote: Remote, ts: int, tsEnd: int, location: string)
    requires JobLog.Valid(log)
    ensures
      var r := Pull(task, main, log, remote, ts, tsEnd, location);
      || r.outcome.Skipped?
      || (&& r.outcome.Finished? && r.outcome.jobId == log.nextId
          && var counts := Counts(Plan(task, Store.EnsureTable(main).value, remote));
             Closed(log, r.log, log.nextId, main.name, ts, tsEnd, r.outcome.message, counts.0, counts.1))
  {
    if Store.EnsureTable(main).Ok? && log.present {
      PullRun(task, main, log, remote, ts, tsEnd, location);
    }
  }

  /** A pull on a valid log that was not skipped, step by step: the guarded
      part as `WorkOutcome` describes it, then the closing update. */
  lemma PullRun(task: Task, main: Store.Table, log: JobLog.Log, remote: Remote, ts: int, tsEnd: int, location: string)
    requires JobLog.Valid(log) && Store.EnsureTable(main).Ok? && log.present
    ensures
      var main1 := Store.EnsureTable(main).value;
      var (log1, jobId) := JobLog.Start(log, main.name, ts).value;
      var w := Work(task, main1, log1, jobId, remote, ts);
      var r := Pull(task, main, log, remote, ts, tsEnd, location);
      var counts := Counts(Plan(task, main1, remote));
      && jobId == log.nextId
      && r == Pulled(w.main, r.log, Finished(jobId, ErrorText(w.end, location)), w.logged + [FinalStatus(ErrorText(w.end, location))])
      && Closed(log, r.log, jobId, main.name, ts, tsEnd, ErrorText(w.end, location), counts.0, counts.1)
  {
    var main1 := Store.EnsureTable(main).value;
    var (log1, jobId) := JobLog.Start(log, main.name, ts).value;
    assert log1.items[..|log.items|] == log.items;
    assert Tracks(log, log1, jobId, main.name, ts, 0, 0);
    WorkOutcome(task, main1, log, log1, jobId, main.name, remote, ts);
    var w := Work(task, main1, log1, jobId, remote, ts);
    var counts := Counts(Plan(task, main1, remote));
    assert Tracks(log, w.log, jobId, main.name, ts, counts.0, counts.1);
    FinalRow(log, w.log, jobId, main.name, ts, counts.0, counts.1, tsEnd, ErrorText(w.end, location));
  }

  /** The statuses a pull writes and what it leaves, on a valid log when the
      table could be created: `fetch`, then `sync` once the fetch returned,
      then `create` when rows are new and `delete` when rows vanished, and
      finally `done`, or `failed` after a partial fetch or an exception. An
      exception in `fetch` or `diff` leaves the table as it was. */
  lemma PullStatuses(task: Task, main: Store.Table, log: JobLog.Log, remote: Remote, ts: int, tsEnd: int, location: string)
    requires JobLog.Valid(log) && Store.EnsureTable(main).Ok? && log.present
    ensures
      var r := Pull(task, main, log, remote, ts, tsEnd, location);
      var main1 := Store.EnsureTable(main).value;
      match Plan(task, main1, remote)
      case Err(e) =>
        && r.outcome == Finished(log.nextId, ExceptionText(location, e))
        && r.main == main1
        && r.logged == ["fetch"] + (if Fetch(task, main.model, remote).Ok? then ["sync"] else []) + ["failed"]
      case Ok(p) =>
        && r.outcome == Finished(log.nextId, if p.2 then PartialMessage else "")
        && Store.Add(main1, ts, p.0).Ok? && Store.Delete(Store.Add(main1, ts, p.0).value, ts, p.1).Ok?
        && r.main == Store.Delete(Store.Add(main1, ts, p.0).value, ts, p.1).value
        && r.logged == ["fetch", "sync"] + PhaseStatuses(p.0, p.1) + [if p.2 then "failed" else "done"]
  {
    PullConcluded(task, main, log, remote, ts, tsEnd, location);
    var main1 := Store.EnsureTable(main).value;
    assert main1.model == main.model;
  }

  /** `Concluded` for the pull itself, with the job id and the statuses before
      the phases spelt out. */
  lemma PullConcluded(task: Task, main: Store.Table, log: JobLog.Log, remote: Remote, ts: int, tsEnd: int, location: string)
    requires JobLog.Valid(log) && Store.EnsureTable(main).Ok? && log.present
    ensures
      var main1 := Store.EnsureTable(main).value;
      var r := Pull(task, main, log, remote, ts, tsEnd, location);
      var lead := ["fetch"] + SyncLead(task, main1, remote);
      && (Plan(task, main1, remote).Ok? ==> lead == ["fetch", "sync"])
      && Concludes(r, Plan(task, main1, remote), main1, lead, log.nextId, ts, location)
  {
    var main1 := Store.EnsureTable(main).value;
    PlanLead(task, main1, remote);
    var (log1, jobId) := JobLog.Start(log, main.name, ts).value;
    assert log1.items[..|log.items|] == log.items;
    WorkOutcome(task, main1, log, log1, jobId, main.name, remote, ts);
    PullRun(task, main, log, remote, ts, tsEnd, location);
    Concluded(Pull(task, main, log, remote, ts, tsEnd, location), Work(task, main1, log1, jobId, remote, ts),
              Plan(task, main1, remote), main1, ["fetch"] + SyncLead(task, main1, remote), log, jobId, main.name, ts, location);
  }

  /** A plan that succeeds has fetched, so `sync` follows `fetch`. */
  lemma PlanLead(task: Task, main: Store.Table, remote: Remote)
    ensures Plan(task, main, remote).Ok? ==> ["fetch"] + SyncLead(task, main, remote) == ["fetch", "sync"]
  {
  }

  /** The message, table and statuses a pull ends with, as its plan foretells. */
  predicate Concludes(r: Pulled, plan: Result<(seq<Row>, seq<int>, bool)>, main: Store.Table, lead: seq<string>,
                      jobId: int, ts: int, location: string) {
    match plan
    case Err(e) =>
      && r.outcome == Finished(jobId, ExceptionText(location, e)) && r.main == main
      && r.logged == lead + ["failed"]
    case Ok(p) =>
      && r.outcome == Finished(jobId, if p.2 then PartialMessage else "")
      && Store.Add(main, ts, p.0).Ok? && Store.Delete(Store.Add(main, ts, p.0).value, ts, p.1).Ok?
      && r.main == Store.Delete(Store.Add(main, ts, p.0).value, ts, p.1).value
      && r.logged == lead + PhaseStatuses(p.0, p.1) + [if p.2 then "failed" else "done"]
  }

  /** How a pull that ran its guarded part ends, read off the report of that
      part: the message, the table and the statuses. */
  lemma Concluded(r: Pulled, w: Progress, plan: Result<(seq<Row>, seq<int>, bool)>, main: Store.Table, lead: seq<string>,
                  before: JobLog.Log, jobId: int, target: string, ts: int, location: string)
    requires Reports(w, plan, main, lead, before, jobId, target, ts)
    requires r == Pulled(w.main, r.log, Finished(jobId, ErrorText(w.end, location)), w.logged + [FinalStatus(ErrorText(w.end, location))])
    ensures Concludes(r, plan, main, lead, jobId, ts, location)
  {
  }

  /** A pull whose fetch an HTTP error cut short, when `fetch` and `diff` do
      not raise: it ends `failed` with the partial-fetch message, appends
      every new row `diff` left over, marks no row deleted, and the job's row
      records the rows created and none deleted. */
  lemma PartialPull(task: Task, main: Store.Table, log: JobLog.Log, remote: Remote, ts: int, tsEnd: int, location: string)
    requires JobLog.Valid(log) && Store.EnsureTable(main).Ok? && log.present && remote.end.HttpFailure?
    requires Plan(task, Store.EnsureTable(main).value, remote).Ok?
    ensures Fetch(task, main.model, remote).Ok?
    ensures Plan(task, Store.EnsureTable(main).value, remote).value.0
         == Diff(Store.EnsureTable(main).value, task.mainKw, Fetch(task, main.model, remote).value.0).value.0
    ensures
      var r := Pull(task, main, log, remote, ts, tsEnd, location);
      var newRows := Plan(task, Store.EnsureTable(main).value, remote).value.0;
      && r.outcome == Finished(log.nextId, PartialMessage)
      && |r.main.rows| == |main.rows| + |newRows| && r.main.rows[..|main.rows|] == main.rows
      && (forall i | 0 <= i < |newRows| ::
            r.main.rows[|main.rows| + i] == Store.Versioned(main.nextId + i, ts, None, newRows[i]))
      && r.logged == ["fetch", "sync"] + (if newRows == [] then [] else ["create"]) + ["failed"]
      && Closed(log, r.log, log.nextId, main.name, ts, tsEnd, PartialMessage, |newRows|, 0)
  {
    var main1 := Store.EnsureTable(main).value;
    var p := Plan(task, main1, remote).value;
    assert main1.model == main.model && main1.rows == main.rows && main1.nextId == main.nextId;
    PullConcluded(task, main, log, remote, ts, tsEnd, location);
    PullLogsOutcome(task, main, log, remote, ts, tsEnd, location);
    PartialEnds(Pull(task, main, log, remote, ts, tsEnd, location), main, main1, p, log.nextId, ts, location);
    assert Counts(Plan(task, main1, remote)) == (|p.0|, 0);
    assert p.0 == Diff(main1, task.mainKw, Fetch(task, main.model, remote).value.0).value.0;
  }

  /** What `Concludes` says of a partial fetch on the created table `main1`
      of `main`: the message, the rows appended after the kept ones, and
      `create` as the only phase status. */
  lemma PartialEnds(r: Pulled, main: Store.Table, main1: Store.Table, p: (seq<Row>, seq<int>, bool), jobId: int, ts: int, location: string)
    requires p.2 && p.1 == [] && main1.present && main1.rows == main.rows && main1.nextId == main.nextId
    requires Concludes(r, Ok(p), main1, ["fetch", "sync"], jobId, ts, location)
    ensures r.outcome == Finished(jobId, PartialMessage)
    ensures |r.main.rows| == |main.rows| + |p.0| && r.main.rows[..|main.rows|] == main.rows
    ensures forall i | 0 <= i < |p.0| :: r.main.rows[|main.rows| + i] == Store.Versioned(main.nextId + i, ts, None, p.0[i])
    ensures r.logged == ["fetch", "sync"] + (if p.0 == [] then [] else ["create"]) + ["failed"]
  {
    AddsOnly(main, main1, Store.Add(main1, ts, p.0).value, ts, p.0);
    Store.DeleteNothing(Store.Add(main1, ts, p.0).value, ts);
    assert PhaseStatuses(p.0, p.1) == (if p.0 == [] then [] else ["create"]);
  }

  /** Adding `items` to a copy of `main`'s rows leaves `main`'s rows in front
      and the new rows after them. */
  lemma AddsOnly(main: Store.Table, main1: Store.Table, added: Store.Table, ts: int, items: seq<Row>)
    requires main1.rows == main.rows && main1.nextId == main.nextId
    requires Store.Add(main1, ts, items) == Ok(added)
    ensures |added.rows| == |main.rows| + |items| && added.rows[..|main.rows|] == main.rows
    ensures forall i | 0 <= i < |items| :: added.rows[|main.rows| + i] == Store.Versioned(main.nextId + i, ts, None, items[i])
  {
    assert Store.AppendedFrom(added.rows, |main1.rows|, main1.nextId, ts, items);
  }

  /** Closing the job's row keeps the log valid. */
  lemma ClosedValid(before: JobLog.Log, after: JobLog.Log, jobId: int, target: string, ts: int, tsEnd: int, error: string,
                    created: int, deleted: int)
    requires JobLog.Valid(before) && Closed(before, after, jobId, target, ts, tsEnd, error, created, deleted)
    ensures JobLog.Valid(after)
  {
    var n := |before.items|;
    assert forall i | 0 <= i < n :: after.items[i] == before.items[i];
  }

  // ---------------------------------------------------------------------------
  // Pulls keep the table valid
  // ---------------------------------------------------------------------------

  lemma ApplyKeepsValid(main: Store.Table, log: JobLog.Log, jobId: int, ts: int, newRows: seq<Row>, doomed: seq<int>, partial: bool)
    requires Store.Valid(main)
    ensures Store.Valid(Apply(main, log, jobId, ts, newRows, doomed, partial).main)
  {
    PhasesKeepValid(main, log, jobId, ts, newRows, doomed);
  }

  lemma PhasesKeepValid(main: Store.Table, log: JobLog.Log, jobId: int, ts: int, newRows: seq<Row>, doomed: seq<int>)
    requires Store.Valid(main)
    ensures Store.Valid(AppendPhase(main, log, jobId, ts, newRows).main)
    ensures
      var created := AppendPhase(main, log, jobId, ts, newRows);
      Store.Valid(DeletePhase(created.main, created.log, jobId, ts, doomed).main)
  {
    if Store.Add(main, ts, newRows).Ok? {
      Store.AddKeepsValid(main, ts, newRows);
    }
    var created := AppendPhase(main, log, jobId, ts, newRows);
    if created.main.present {
      Store.DeleteKeepsValid(created.main, ts, doomed);
    }
  }

  lemma WorkKeepsValid(task: Task, main: Store.Table, log: JobLog.Log, jobId: int, remote: Remote, ts: int)
    requires Store.Valid(main)
    ensures Store.Valid(Work(task, main, log, jobId, remote, ts).main)
  {
    var log1 := JobLog.Status(log, jobId, "fetch", []);
    if log1.Ok? {
      var log2 := JobLog.Status(log1.value, jobId, "sync", []);
      if Fetch(task, main.model, remote).Ok? && log2.Ok? {
        var (added, partial) := Fetch(task, main.model, remote).value;
        if Diff(main, task.mainKw, added).Ok? {
          var (newRows, doomed) := Diff(main, task.mainKw, added).value;
          ApplyKeepsValid(main, log2.value, jobId, ts, newRows, if partial then [] else doomed, partial);
        }
      }
    }
  }

  /** A pull keeps a valid log valid. */
  lemma PullKeepsLogValid(task: Task, main: Store.Table, log: JobLog.Log, remote: Remote, ts: int, tsEnd: int, location: string)
    requires JobLog.Valid(log)
    ensures JobLog.Valid(Pull(task, main, log, remote, ts, tsEnd, location).log)
    ensures !Pull(task, main, log, remote, ts, tsEnd, location).outcome.Raised?
  {
    var r := Pull(task, main, log, remote, ts, tsEnd, location);
    PullLogsOutcome(task, main, log, remote, ts, tsEnd, location);
    if r.outcome.Finished? {
      var counts := Counts(Plan(task, Store.EnsureTable(main).value, remote));
      ClosedValid(log, r.log, log.nextId, main.name, ts, tsEnd, r.outcome.message, counts.0, counts.1);
    }
  }

  /** A pull keeps a valid table valid. */
  lemma PullKeepsValid(task: Task, main: Store.Table, log: JobLog.Log, remote: Remote, ts: int, tsEnd: int, location: string)
    requires Store.Valid(main)
    ensures Store.Valid(Pull(task, main, log, remote, ts, tsEnd, location).main)
  {
    if Store.EnsureTable(main).Ok? {
      var main1 := Store.EnsureTable(main).value;
      assert Store.Valid(main1);
      if log.present {
        var (log1, jobId) := JobLog.Start(log, main.name, ts).value;
        WorkKeepsValid(task, main1, log1, jobId, remote, ts);
      }
    }
  }
}
