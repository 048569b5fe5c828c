/** `model_transformer` of `aapi_versioned/sync.py`: turns an API item, or a
    stored data tuple, into the hashable row tuple of a database model. Fields
    are picked by name from the API model (or taken as they are when there is
    no API model), `None` stays `None`, and geometry-typed fields become their
    text without spaces.
 */
module Transform {

  import opened Results
  import opened Datum
  import opened Text
  import Store
  import QueryBuilder

  /** The annotation types `type_methods` maps to `str(x).replace(' ', '')`. */
  predicate IsGeometry(t: Store.FieldType) {
    t.PointType? || t.PolygonType? || t.MultipolygonType?
  }

  /** One `None if data_x is None else mapper(data_x)`. */
  function MapField(t: Store.FieldType, x: Value): Value {
    if x.Null? then Null
    else if IsGeometry(t) then Str(RemoveSpaces(Show(x)))
    else x
  }

  /** Mapping a field a second time changes nothing: geometry text has no spaces left. */
  lemma MapFieldIdempotent(t: Store.FieldType, x: Value)
    ensures MapField(t, MapField(t, x)) == MapField(t, x)
    ensures x.Null? <==> MapField(t, x).Null?
    ensures IsGeometry(t) && !x.Null? ==> MapField(t, x).Str? && ' ' !in MapField(t, x).s
    ensures !IsGeometry(t) ==> MapField(t, x) == x
  {
    if IsGeometry(t) && !x.Null? {
      RemoveSpacesIdempotent(Show(x));
    }
  }

  // ---------------------------------------------------------------------------
  // f: identity or itemgetter
  // ---------------------------------------------------------------------------

  /** `tuple.index`: the first position of `name`. */
  function IndexOf(names: seq<string>, name: string): (r: Option<nat>)
    ensures r.Some? <==> name in names
    ensures r.Some? ==> r.value < |names| && names[r.value] == name && name !in names[..r.value]
  {
    if |names| == 0 then None
    else if names[0] == name then Some(0)
    else
      match IndexOf(names[1..], name)
      case None => None
      case Some(i) =>
        assert names[..i + 1] == [names[0]] + names[1..][..i];
        Some(i + 1)
  }

  /** The `f` of `model_transformer`: the identity, or an `itemgetter` of positions. */
  datatype Getter = Identity | Pick(indices: seq<nat>)

  /** The positions of the target fields in the source fields; the first missing one raises. */
  function Positions(from: seq<string>, to: seq<string>): (r: Result<seq<nat>>)
    ensures r.Ok? <==> forall k | 0 <= k < |to| :: to[k] in from
    ensures r.Err? ==> r.error == ValueError("tuple.index(x): x not in tuple")
    ensures r.Ok? ==> |r.value| == |to| && forall k | 0 <= k < |to| ::
      r.value[k] < |from| && from[r.value[k]] == to[k] && to[k] !in from[..r.value[k]]
  {
    if |to| == 0 then Ok([])
    else
      match IndexOf(from, to[0])
      case None => Err(ValueError("tuple.index(x): x not in tuple"))
      case Some(i) =>
        assert forall k | 1 <= k < |to| :: to[1..][k - 1] == to[k];
        match Positions(from, to[1..])
        case Err(e) => Err(e)
        case Ok(rest) => Ok([i] + rest)
  }

  /** `f` as `model_transformer` builds it from the target model and the optional source fields. */
  function MakeGetter(to: Store.Model, from: Option<seq<string>>): (r: Result<Getter>)
    ensures from.None? ==> r == Ok(Identity)
    ensures from.Some? ==> (r.Ok? <==> |to| > 0 && forall k | 0 <= k < |to| :: to[k].0 in from.value)
    ensures from.Some? && (exists k | 0 <= k < |to| :: to[k].0 !in from.value) ==> r == Err(ValueError("tuple.index(x): x not in tuple"))
    ensures from.Some? && |to| == 0 ==> r == Err(TypeError("itemgetter expected 1 argument, got 0"))
    ensures r.Ok? && from.Some? ==> r.value.Pick? && |r.value.indices| == |to| && forall k | 0 <= k < |to| ::
      r.value.indices[k] < |from.value| && from.value[r.value.indices[k]] == to[k].0
      && to[k].0 !in from.value[..r.value.indices[k]]
  {
    match from
    case None => Ok(Identity)
    case Some(names) =>
      var ix :- Positions(names, QueryBuilder.Keys(to));
      if |ix| == 0 then Err(TypeError("itemgetter expected 1 argument, got 0"))
      else Ok(Pick(ix))
  }

  /** `f(data)`, always giving a tuple: a one-field model gets a one-tuple. */
  function Gather(g: Getter, data: seq<Value>): (r: Result<seq<Value>>)
    ensures g.Identity? ==> r == Ok(data)
    ensures g.Pick? ==> (r.Ok? <==> forall k | 0 <= k < |g.indices| :: g.indices[k] < |data|)
    ensures g.Pick? && r.Ok? ==> |r.value| == |g.indices| && forall k | 0 <= k < |g.indices| :: r.value[k] == data[g.indices[k]]
    ensures r.Err? ==> r.error == IndexError("tuple index out of range")
  {
    match g
    case Identity => Ok(data)
    case Pick(ix) =>
      if forall k | 0 <= k < |ix| :: ix[k] < |data| then Ok(seq(|ix|, k requires 0 <= k < |ix| => data[ix[k]]))
      else Err(IndexError("tuple index out of range"))
  }

  /** `model_to(*(... for data_x, mapper in zip(values, field_methods)))`: `zip`
      stops at the shorter side, and a model left short of fields raises. */
  function Build(to: Store.Model, values: seq<Value>): (r: Result<seq<Value>>)
    ensures r.Ok? <==> |values| >= |to|
    ensures r.Err? ==> r.error.TypeError?
    ensures r.Ok? ==> |r.value| == |to| && forall k | 0 <= k < |to| :: r.value[k] == MapField(to[k].1, values[k])
  {
    if |values| < |to| then Err(TypeError("__new__() missing required positional arguments"))
    else Ok(seq(|to|, k requires 0 <= k < |to| => MapField(to[k].1, values[k])))
  }

  /** The returned `parse`, with a one-field getter yielding a one-tuple. */
  function ToMain(to: Store.Model, g: Getter, data: seq<Value>): (r: Result<seq<Value>>)
    ensures r.Ok? ==> |r.value| == |to|
    ensures g.Identity? ==> (r.Ok? <==> |data| >= |to|)
    ensures g.Pick? && |g.indices| == |to| ==> (r.Ok? <==> forall k | 0 <= k < |to| :: g.indices[k] < |data|)
  {
    var values :- Gather(g, data);
    Build(to, values)
  }

  /** With an API model, field `k` of the row is the mapped item field of the same name. */
  lemma ToMainPicksByName(to: Store.Model, from: seq<string>, data: seq<Value>)
    requires MakeGetter(to, Some(from)).Ok? && |data| == |from|
    ensures ToMain(to, MakeGetter(to, Some(from)).value, data).Ok?
    ensures forall k | 0 <= k < |to| ::
      var i := IndexOf(from, to[k].0).value;
      ToMain(to, MakeGetter(to, Some(from)).value, data).value[k] == MapField(to[k].1, data[i])
  {
    var g := MakeGetter(to, Some(from)).value;
    forall k | 0 <= k < |to|
      ensures IndexOf(from, to[k].0).value == g.indices[k]
    {
      IndexOfUnique(from, to[k].0, g.indices[k]);
    }
  }

  /** Step fact: the first occurrence of a name is where `IndexOf` finds it. */
  lemma IndexOfUnique(names: seq<string>, name: string, i: nat)
    requires i < |names| && names[i] == name && name !in names[..i]
    ensures IndexOf(names, name) == Some(i)
  {
  }

  /** Without an API model the transformer keeps the stored tuple, mapping each field. */
  lemma ToMainIdentity(to: Store.Model, data: seq<Value>)
    requires |data| == |to|
    ensures ToMain(to, Identity, data).Ok?
    ensures forall k | 0 <= k < |to| :: ToMain(to, Identity, data).value[k] == MapField(to[k].1, data[k])
  {
  }

  /** A row tuple the transformer produced is a fixed point of the identity
      transformer: a stored row reads back as the same tuple it was stored from. */
  lemma ToMainIdempotent(to: Store.Model, g: Getter, data: seq<Value>)
    requires ToMain(to, g, data).Ok?
    ensures ToMain(to, Identity, ToMain(to, g, data).value) == ToMain(to, g, data)
  {
    var row := ToMain(to, g, data).value;
    var values := Gather(g, data).value;
    var again := ToMain(to, Identity, row).value;
    forall k | 0 <= k < |to|
      ensures again[k] == row[k]
    {
      MapFieldIdempotent(to[k].1, values[k]);
    }
    assert again == row;
  }

  // ---------------------------------------------------------------------------
  // The single-field itemgetter, as written
  // ---------------------------------------------------------------------------

  /** `f(data)` as written: `itemgetter` of a single position returns the bare
      field instead of a one-tuple, and `zip` then iterates that value. */
  function GatherAsWritten(g: Getter, data: seq<Value>): (r: Result<seq<Value>>)
    ensures g.Pick? && |g.indices| != 1 ==> r == Gather(g, data)
    ensures g.Pick? && |g.indices| == 1 && g.indices[0] < |data| ==> r == ListOf(data[g.indices[0]])
  {
    match g
    case Identity => Ok(data)
    case Pick(ix) =>
      if |ix| == 1 then
        if ix[0] < |data| then ListOf(data[ix[0]]) else Err(IndexError("tuple index out of range"))
      else Gather(g, data)
  }

  /** `parse` as written. */
  function ToMainAsWritten(to: Store.Model, g: Getter, data: seq<Value>): (r: Result<seq<Value>>)
    ensures g.Identity? || (g.Pick? && |g.indices| != 1) ==> r == ToMain(to, g, data)
  {
    var values :- GatherAsWritten(g, data);
    Build(to, values)
  }

  /** A one-field model picked from a two-field API model gets the getter of one position. */
  lemma SingleFieldGetter(name: string, other: string)
    requires name != other
    ensures MakeGetter([(name, Store.StrType)], Some([other, name])) == Ok(Pick([1]))
  {
    var to: Store.Model := [(name, Store.StrType)];
    assert QueryBuilder.Keys(to) == [name];
    assert IndexOf([other, name], name) == Some(1) by {
      assert [other, name][1..] == [name];
    }
    assert Positions([other, name], [name]) == Ok([1]) by {
      assert [name][1..] == [];
      assert Positions([other, name], []) == Ok([]);
      assert [1] + [] == [1];
    }
  }

  /** A one-field model as written: a non-empty text field keeps only its first
      character, where the intended row holds the whole text. */
  lemma SingleFieldText(name: string, x: Value, text: string)
    requires |text| > 0
    ensures ToMainAsWritten([(name, Store.StrType)], Pick([1]), [x, Str(text)]) == Ok([Str([text[0]])])
    ensures ToMain([(name, Store.StrType)], Pick([1]), [x, Str(text)]) == Ok([Str(text)])
  {
    var to: Store.Model := [(name, Store.StrType)];
    var g := Pick([1]);
    assert GatherAsWritten(g, [x, Str(text)]) == Ok(Chars(text));
    var b := Build(to, Chars(text));
    assert b.Ok? && |b.value| == 1 && b.value[0] == Str([text[0]]);
    assert b.value == [Str([text[0]])];
    assert ToMainAsWritten(to, g, [x, Str(text)]) == b;
    var gs := Gather(g, [x, Str(text)]);
    assert gs.Ok? && |gs.value| == 1 && gs.value[0] == Str(text);
    var c := Build(to, gs.value);
    assert c.Ok? && |c.value| == 1 && c.value[0] == Str(text);
    assert c.value == [Str(text)];
    assert ToMain(to, g, [x, Str(text)]) == c;
  }

  /** A one-field model as written: a number is not iterable and raises, where
      the intended row holds the number. */
  lemma SingleFieldNumber(name: string, x: Value, n: int)
    ensures ToMainAsWritten([(name, Store.StrType)], Pick([1]), [x, Int(n)]) == Err(TypeError("'int' object is not iterable"))
    ensures ToMain([(name, Store.StrType)], Pick([1]), [x, Int(n)]) == Ok([Int(n)])
  {
    var to: Store.Model := [(name, Store.StrType)];
    var g := Pick([1]);
    assert "'" + "int" + "' object is not iterable" == "'int' object is not iterable";
    assert GatherAsWritten(g, [x, Int(n)]) == Err(TypeError("'int' object is not iterable"));
    var gn := Gather(g, [x, Int(n)]);
    assert gn.Ok? && |gn.value| == 1 && gn.value[0] == Int(n);
    var d := Build(to, gn.value);
    assert d.Ok? && |d.value| == 1 && d.value[0] == Int(n);
    assert d.value == [Int(n)];
    assert ToMain(to, g, [x, Int(n)]) == d;
  }
}
