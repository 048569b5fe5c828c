/** How the database orders the rows of an `ORDER BY` query: ascending, column by
    column, with NULL after every other value (PostgreSQL's default for ASC).
    Strings compare by character code. Values of kinds without a natural order
    (geometry, floats, lists) are treated as ties.
 */
module Ordering {

  import opened Datum

  /** Position of a value's kind; NULL comes last. */
  function KindRank(v: Value): nat {
    match v
    case Bool(_) => 0
    case Int(_) => 1
    case Str(_) => 2
    case Stamp(_) => 3
    case Geometry(_) => 4
    case Opaque(_, _) => 5
    case Array(_) => 6
    case Null => 7
  }

  /** Lexicographic order on character codes. */
  predicate StrLeq(a: string, b: string) {
    |a| == 0 || (|b| > 0 && (a[0] < b[0] || (a[0] == b[0] && StrLeq(a[1..], b[1..]))))
  }

  predicate ValueLeq(a: Value, b: Value) {
    if KindRank(a) != KindRank(b) then KindRank(a) < KindRank(b)
    else
      match (a, b)
      case (Bool(x), Bool(y)) => !x || y
      case (Int(x), Int(y)) => x <= y
      case (Str(x), Str(y)) => StrLeq(x, y)
      case (Stamp(x), Stamp(y)) => x <= y
      case _ => true
  }

  /** Lexicographic order on sort keys: the first column decides unless it ties. */
  predicate KeyLeq(a: seq<Value>, b: seq<Value>) {
    |a| == 0 ||
    (|b| > 0 && ValueLeq(a[0], b[0]) && (!ValueLeq(b[0], a[0]) || KeyLeq(a[1..], b[1..])))
  }

  lemma {:induction false} StrLeqTotal(a: string, b: string)
    ensures StrLeq(a, b) || StrLeq(b, a)
    decreases |a|
  {
    if |a| > 0 && |b| > 0 && a[0] == b[0] {
      StrLeqTotal(a[1..], b[1..]);
    }
  }

  lemma {:induction false} StrLeqTrans(a: string, b: string, c: string)
    requires StrLeq(a, b) && StrLeq(b, c)
    ensures StrLeq(a, c)
    decreases |a|
  {
    if |a| > 0 && a[0] == b[0] && b[0] == c[0] {
      StrLeqTrans(a[1..], b[1..], c[1..]);
    }
  }

  lemma ValueLeqTotal(a: Value, b: Value)
    ensures ValueLeq(a, b) || ValueLeq(b, a)
  {
    if a.Str? && b.Str? {
      StrLeqTotal(a.s, b.s);
    }
  }

  lemma ValueLeqTrans(a: Value, b: Value, c: Value)
    requires ValueLeq(a, b) && ValueLeq(b, c)
    ensures ValueLeq(a, c)
  {
    if a.Str? && b.Str? && c.Str? {
      StrLeqTrans(a.s, b.s, c.s);
    }
  }

  lemma {:induction false} KeyLeqTotal(a: seq<Value>, b: seq<Value>)
    ensures KeyLeq(a, b) || KeyLeq(b, a)
    decreases |a|
  {
    if |a| > 0 && |b| > 0 {
      ValueLeqTotal(a[0], b[0]);
      KeyLeqTotal(a[1..], b[1..]);
    }
  }

  lemma {:induction false} KeyLeqTrans(a: seq<Value>, b: seq<Value>, c: seq<Value>)
    requires KeyLeq(a, b) && KeyLeq(b, c)
    ensures KeyLeq(a, c)
    decreases |a|
  {
    if |a| > 0 {
      ValueLeqTrans(a[0], b[0], c[0]);
      if ValueLeq(c[0], a[0]) {
        ValueLeqTrans(c[0], a[0], b[0]);
        ValueLeqTrans(b[0], c[0], a[0]);
        KeyLeqTrans(a[1..], b[1..], c[1..]);
      }
    }
  }

  /** Every row's key is at most the key of every later row. */
  predicate SortedBy<T>(s: seq<T>, key: T -> seq<Value>) {
    forall i, j | 0 <= i < j < |s| :: KeyLeq(key(s[i]), key(s[j]))
  }

  /** Places `x` in front of the first row whose key is not below it. */
  function InsertBy<T>(x: T, s: seq<T>, key: T -> seq<Value>): (r: seq<T>)
    ensures |r| == |s| + 1
  {
    if |s| == 0 then [x]
    else if KeyLeq(key(x), key(s[0])) then [x] + s
    else [s[0]] + InsertBy(x, s[1..], key)
  }

  /** The rows in key order; rows with equal keys keep their stored order. */
  function SortBy<T>(xs: seq<T>, key: T -> seq<Value>): (r: seq<T>)
    ensures |r| == |xs|
  {
    if |xs| == 0 then [] else InsertBy(xs[0], SortBy(xs[1..], key), key)
  }

  lemma {:induction false} InsertByPermutes<T>(x: T, s: seq<T>, key: T -> seq<Value>)
    ensures multiset(InsertBy(x, s, key)) == multiset(s) + multiset{x}
    decreases |s|
  {
    if |s| > 0 && !KeyLeq(key(x), key(s[0])) {
      InsertByPermutes(x, s[1..], key);
      assert s == [s[0]] + s[1..];
    }
  }

  lemma {:induction false} InsertBySorted<T>(x: T, s: seq<T>, key: T -> seq<Value>)
    requires SortedBy(s, key)
    ensures SortedBy(InsertBy(x, s, key), key)
    decreases |s|
  {
    if |s| == 0 {
    } else if KeyLeq(key(x), key(s[0])) {
      var r := [x] + s;
      forall i, j | 0 <= i < j < |r|
        ensures KeyLeq(key(r[i]), key(r[j]))
      {
        if i == 0 && j > 1 {
          KeyLeqTrans(key(x), key(s[0]), key(s[j - 1]));
        }
      }
    } else {
      KeyLeqTotal(key(x), key(s[0]));
      var t := InsertBy(x, s[1..], key);
      InsertBySorted(x, s[1..], key);
      InsertByPermutes(x, s[1..], key);
      var r := [s[0]] + t;
      forall i, j | 0 <= i < j < |r|
        ensures KeyLeq(key(r[i]), key(r[j]))
      {
        if i == 0 {
          var y := t[j - 1];
          assert y in multiset(t);
          if y != x {
            assert y in multiset(s[1..]);
            var m :| 0 <= m < |s[1..]| && s[1..][m] == y;
            assert s[m + 1] == y;
          }
        }
      }
    }
  }

  /** `SortBy` is a permutation of its input in key order. */
  lemma SortByCorrect<T>(xs: seq<T>, key: T -> seq<Value>)
    ensures multiset(SortBy(xs, key)) == multiset(xs)
    ensures SortedBy(SortBy(xs, key), key)
  {
    SortByPermutes(xs, key);
    SortBySorted(xs, key);
  }

  lemma {:induction false} SortByPermutes<T>(xs: seq<T>, key: T -> seq<Value>)
    ensures multiset(SortBy(xs, key)) == multiset(xs)
    decreases |xs|
  {
    if |xs| > 0 {
      var rest := SortBy(xs[1..], key);
      SortByPermutes(xs[1..], key);
      InsertByPermutes(xs[0], rest, key);
      assert multiset(xs) == multiset(xs[1..]) + multiset{xs[0]} by {
        assert xs == [xs[0]] + xs[1..];
      }
    }
  }

  lemma {:induction false} SortBySorted<T>(xs: seq<T>, key: T -> seq<Value>)
    ensures SortedBy(SortBy(xs, key), key)
    decreases |xs|
  {
    if |xs| > 0 {
      SortBySorted(xs[1..], key);
      InsertBySorted(xs[0], SortBy(xs[1..], key), key);
    }
  }

  /** A row belongs to the sorted result exactly when it belongs to the input. */
  lemma SortByMembers<T>(xs: seq<T>, key: T -> seq<Value>, x: T)
    ensures x in SortBy(xs, key) <==> x in xs
  {
    SortByCorrect(xs, key);
    assert x in SortBy(xs, key) <==> x in multiset(SortBy(xs, key));
    assert x in xs <==> x in multiset(xs);
  }
}
