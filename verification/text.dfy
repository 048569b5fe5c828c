/** String helpers standing in for the Python string operations the builder uses:
    `sep.join`, f-string quoting, `'{:d}'` formatting, `str.replace(' ', '')`,
    `str.rsplit('__', 1)` and `str.split()`.
 */
module Text {

  import opened Results

  /** `sep.join(xs)` */
  function Join(sep: string, xs: seq<string>): string
  {
    if |xs| == 0 then ""
    else if |xs| == 1 then xs[0]
    else xs[0] + sep + Join(sep, xs[1..])
  }

  /** `f'"{f}"'`: a field name between double quotes. */
  function Quote(f: string): (r: string)
    ensures |r| == |f| + 2 && r[0] == '"' && r[|r| - 1] == '"' && r[1..|r| - 1] == f
  {
    "\"" + f + "\""
  }

  // ---------------------------------------------------------------------------
  // Decimal integers: `f'{n:d}'`
  // ---------------------------------------------------------------------------

  predicate IsDigit(c: char) {
    '0' <= c <= '9'
  }

  function DigitChar(d: nat): char
    requires d < 10
  {
    ['0', '1', '2', '3', '4', '5', '6', '7', '8', '9'][d]
  }

  function DigitValue(c: char): nat
    requires IsDigit(c)
  {
    (c as int) - ('0' as int)
  }

  /** Decimal digits of a natural number, most significant first. */
  function NatToString(n: nat): (s: string)
    ensures |s| > 0 && forall i | 0 <= i < |s| :: IsDigit(s[i])
    ensures |s| > 1 ==> s[0] != '0'
  {
    if n < 10 then [DigitChar(n)] else NatToString(n / 10) + [DigitChar(n % 10)]
  }

  /** `f'{n:d}'`: an optional minus sign followed by the digits of `|n|`. */
  function IntToString(n: int): string
  {
    if n < 0 then "-" + NatToString(-n) else NatToString(n)
  }

  /** Reads back a string of decimal digits (the partner of `NatToString`). */
  function ParseNat(s: string): nat
    requires forall i | 0 <= i < |s| :: IsDigit(s[i])
  {
    if |s| == 0 then 0 else ParseNat(s[..|s| - 1]) * 10 + DigitValue(s[|s| - 1])
  }

  /** Reads back an optionally signed decimal integer. */
  function ParseInt(s: string): int
    requires |s| > 0
    requires s[0] == '-' ==> forall i | 1 <= i < |s| :: IsDigit(s[i])
    requires s[0] != '-' ==> forall i | 0 <= i < |s| :: IsDigit(s[i])
  {
    if s[0] == '-' then -(ParseNat(s[1..]) as int) else ParseNat(s)
  }

  lemma {:induction false} NatToStringRoundTrip(n: nat)
    ensures ParseNat(NatToString(n)) == n
    decreases n
  {
    if n >= 10 {
      var s := NatToString(n);
      NatToStringRoundTrip(n / 10);
      assert s[..|s| - 1] == NatToString(n / 10);
    }
  }

  /** The decimal rendering of an integer reads back as the same integer. */
  lemma IntToStringRoundTrip(n: int)
    ensures var s := IntToString(n);
      |s| > 0 &&
      (s[0] == '-' ==> forall i | 1 <= i < |s| :: IsDigit(s[i])) &&
      (s[0] != '-' ==> forall i | 0 <= i < |s| :: IsDigit(s[i])) &&
      ParseInt(s) == n
  {
    var s := IntToString(n);
    if n < 0 {
      var t := NatToString(-n);
      NatToStringRoundTrip(-n);
      assert s == "-" + t && s[0] == '-';
      assert s[1..] == t;
      assert forall i | 1 <= i < |s| :: s[i] == t[i - 1];
    } else {
      NatToStringRoundTrip(n);
      assert IsDigit(s[0]);
    }
  }

  // ---------------------------------------------------------------------------
  // `str(x).replace(' ', '')`
  // ---------------------------------------------------------------------------

  function RemoveSpaces(s: string): (r: string)
    ensures ' ' !in r
    ensures |r| <= |s|
    ensures forall c | c in r :: c in s
    ensures ' ' !in s ==> r == s
  {
    if |s| == 0 then ""
    else if s[0] == ' ' then RemoveSpaces(s[1..])
    else [s[0]] + RemoveSpaces(s[1..])
  }

  /** Removing spaces a second time changes nothing. */
  lemma RemoveSpacesIdempotent(s: string)
    ensures RemoveSpaces(RemoveSpaces(s)) == RemoveSpaces(s)
  {
  }

  // ---------------------------------------------------------------------------
  // `k.rsplit('__', 1)`
  // ---------------------------------------------------------------------------

  predicate SeparatorAt(s: string, j: int) {
    0 <= j && j + 1 < |s| && s[j] == '_' && s[j + 1] == '_'
  }

  /** The start of the right-most `__` that ends at or before position `i`. */
  function LastSeparator(s: string, i: nat): (r: Option<nat>)
    requires i <= |s|
    ensures r.Some? ==> r.value + 2 <= i && SeparatorAt(s, r.value)
    ensures r.Some? ==> forall m | r.value < m && m + 2 <= i :: !SeparatorAt(s, m)
    ensures r.None? ==> forall m | 0 <= m && m + 2 <= i :: !SeparatorAt(s, m)
    decreases i
  {
    if i < 2 then None
    else if s[i - 2] == '_' && s[i - 1] == '_' then Some(i - 2)
    else LastSeparator(s, i - 1)
  }

  /** `k.rsplit('__', 1)` when `'__' in k`, otherwise `None`. */
  function RSplitSeparator(k: string): (r: Option<(string, string)>)
    ensures r.None? <==> forall m | 0 <= m < |k| :: !SeparatorAt(k, m)
    ensures r.Some? ==> k == r.value.0 + "__" + r.value.1
    ensures r.Some? ==> forall m | 0 <= m < |r.value.1| :: !SeparatorAt(r.value.1, m)
  {
    match LastSeparator(k, |k|)
    case None => None
    case Some(j) =>
      var op := k[j + 2..];
      assert forall m | 0 <= m < |op| :: SeparatorAt(op, m) ==> SeparatorAt(k, j + 2 + m);
      assert k == k[..j] + "__" + op;
      Some((k[..j], op))
  }

  /** A key built as `name + "__" + op`, where `op` has no underscore, splits back. */
  lemma RSplitOfSuffixed(name: string, op: string)
    requires '_' !in op
    ensures RSplitSeparator(name + "__" + op) == Some((name, op))
  {
    var k := name + "__" + op;
    assert SeparatorAt(k, |name|);
    var r := LastSeparator(k, |k|);
    assert r.Some?;
    assert r.value == |name|;
    assert k[..|name|] == name;
    assert k[|name| + 2..] == op;
  }

  /** A key without an underscore pair is not split. */
  lemma RSplitOfPlain(k: string)
    requires forall m | 0 <= m < |k| - 1 :: !(k[m] == '_' && k[m + 1] == '_')
    ensures RSplitSeparator(k) == None
  {
  }

  // ---------------------------------------------------------------------------
  // `s.split()`: maximal runs of non-whitespace
  // ---------------------------------------------------------------------------

  /** The characters Python's `str.split()` treats as whitespace: those of
      Unicode category Zs or bidirectional class WS, B or S. */
  predicate IsSpace(c: char) {
    || c == ' ' || c == '\t' || c == '\n' || c == '\r' || c as int == 0x0b || c as int == 0x0c
    || 0x1c <= c as int <= 0x1f || c as int == 0x85 || c as int == 0xa0 || c as int == 0x1680
    || 0x2000 <= c as int <= 0x200a || c as int == 0x2028 || c as int == 0x2029
    || c as int == 0x202f || c as int == 0x205f || c as int == 0x3000
  }

  predicate NoSpace(s: string) {
    forall i | 0 <= i < |s| :: !IsSpace(s[i])
  }

  /** `s` with every whitespace character removed. */
  function Squeeze(s: string): string {
    if |s| == 0 then "" else (if IsSpace(s[0]) then "" else [s[0]]) + Squeeze(s[1..])
  }

  function Concat(ws: seq<string>): string {
    if |ws| == 0 then "" else ws[0] + Concat(ws[1..])
  }

  /** Length of the leading run of non-whitespace characters. */
  function WordLength(s: string): (n: nat)
    ensures n <= |s| && NoSpace(s[..n]) && (n < |s| ==> IsSpace(s[n]))
  {
    if |s| == 0 || IsSpace(s[0]) then 0
    else
      var n := 1 + WordLength(s[1..]);
      assert s[..n] == [s[0]] + s[1..][..n - 1];
      n
  }

  lemma {:induction false} SqueezeAppend(a: string, b: string)
    ensures Squeeze(a + b) == Squeeze(a) + Squeeze(b)
    decreases |a|
  {
    if |a| > 0 {
      assert (a + b)[1..] == a[1..] + b;
      SqueezeAppend(a[1..], b);
    } else {
      assert a + b == b;
    }
  }

  lemma {:induction false} SqueezeNoSpace(s: string)
    requires NoSpace(s)
    ensures Squeeze(s) == s
    decreases |s|
  {
    if |s| > 0 {
      SqueezeNoSpace(s[1..]);
    }
  }

  /** `s.split()`: the words of `s`, which concatenate back to `s` without its whitespace. */
  function Words(s: string): (ws: seq<string>)
    ensures forall i | 0 <= i < |ws| :: |ws[i]| > 0 && NoSpace(ws[i])
    ensures Concat(ws) == Squeeze(s)
    decreases |s|
  {
    if |s| == 0 then []
    else if IsSpace(s[0]) then
      var ws := Words(s[1..]);
      assert Squeeze(s) == Squeeze(s[1..]);
      ws
    else
      var n := WordLength(s);
      var ws := [s[..n]] + Words(s[n..]);
      assert s == s[..n] + s[n..];
      SqueezeAppend(s[..n], s[n..]);
      SqueezeNoSpace(s[..n]);
      assert ws[1..] == Words(s[n..]);
      ws
  }

  lemma {:induction false} ConcatChars(ws: seq<string>, i: nat, c: char)
    requires i < |ws| && c in ws[i]
    ensures c in Concat(ws)
    decreases |ws|
  {
    if i > 0 {
      ConcatChars(ws[1..], i - 1, c);
    }
  }

  lemma {:induction false} SqueezeChars(s: string, c: char)
    requires c in Squeeze(s)
    ensures c in s
    decreases |s|
  {
    if |s| > 0 && c !in (if IsSpace(s[0]) then "" else [s[0]]) {
      SqueezeChars(s[1..], c);
    }
  }

  /** Every character of a word comes from the split string. */
  lemma WordsChars(s: string)
    ensures forall i, c | 0 <= i < |Words(s)| && c in Words(s)[i] :: c in s
  {
    var ws := Words(s);
    forall i, c | 0 <= i < |ws| && c in ws[i]
      ensures c in s
    {
      ConcatChars(ws, i, c);
      SqueezeChars(s, c);
    }
  }

  /** A single word splits into itself. */
  lemma WordsOfWord(w: string)
    requires |w| > 0 && NoSpace(w)
    ensures Words(w) == [w]
  {
    assert WordLength(w) == |w|;
    assert w[..|w|] == w;
  }

  lemma {:induction false} WordLengthBeforeSpace(a: string, t: string)
    requires NoSpace(a) && |t| > 0 && IsSpace(t[0])
    ensures WordLength(a + t) == |a|
    decreases |a|
  {
    if |a| == 0 {
      assert a + t == t;
    } else {
      assert (a + t)[1..] == a[1..] + t;
      WordLengthBeforeSpace(a[1..], t);
    }
  }

  /** A word followed by a space splits off as the first word. */
  lemma WordsCons(a: string, rest: string)
    requires |a| > 0 && NoSpace(a)
    ensures Words(a + " " + rest) == [a] + Words(rest)
  {
    var s := a + (" " + rest);
    assert a + " " + rest == s;
    WordLengthBeforeSpace(a, " " + rest);
    assert s[..|a|] == a;
    assert s[|a|..] == " " + rest;
    assert (" " + rest)[1..] == rest;
  }

  /** Two words separated by one space split into the two words. */
  lemma WordsOfPair(a: string, b: string)
    requires |a| > 0 && NoSpace(a) && |b| > 0 && NoSpace(b)
    ensures Words(a + " " + b) == [a, b]
  {
    WordsCons(a, b);
    WordsOfWord(b);
  }

  // ---------------------------------------------------------------------------
  // Placeholders
  // ---------------------------------------------------------------------------

  /** Number of `%` characters. */
  function Percents(s: string): nat {
    multiset(s)['%']
  }

  /** Every `%` in `s` starts a `%s` placeholder (so `Percents` counts placeholders). */
  predicate OnlyPlaceholders(s: string)
    decreases |s|
  {
    |s| == 0 || ((s[0] == '%' ==> |s| > 1 && s[1] == 's') && OnlyPlaceholders(s[1..]))
  }

  lemma PercentsAppend(a: string, b: string)
    ensures Percents(a + b) == Percents(a) + Percents(b)
  {
    assert multiset(a + b) == multiset(a) + multiset(b);
  }

  lemma {:induction false} OnlyPlaceholdersAppend(a: string, b: string)
    requires OnlyPlaceholders(a) && OnlyPlaceholders(b)
    ensures OnlyPlaceholders(a + b)
    decreases |a|
  {
    if |a| == 0 {
      assert a + b == b;
    } else {
      assert (a + b)[1..] == a[1..] + b;
      OnlyPlaceholdersAppend(a[1..], b);
    }
  }

  /** A string without `%` has no placeholder. */
  lemma {:induction false} NoPercentPlaceholders(s: string)
    requires '%' !in s
    ensures Percents(s) == 0 && OnlyPlaceholders(s)
    decreases |s|
  {
    if |s| > 0 {
      NoPercentPlaceholders(s[1..]);
    }
  }

  function SumPercents(xs: seq<string>): nat {
    if |xs| == 0 then 0 else Percents(xs[0]) + SumPercents(xs[1..])
  }

  /** Joining with a separator that has no `%` adds no placeholder and keeps placeholders well formed. */
  lemma {:induction false} JoinPlaceholders(sep: string, xs: seq<string>)
    requires Percents(sep) == 0 && OnlyPlaceholders(sep)
    requires forall i | 0 <= i < |xs| :: OnlyPlaceholders(xs[i])
    ensures Percents(Join(sep, xs)) == SumPercents(xs)
    ensures OnlyPlaceholders(Join(sep, xs))
    decreases |xs|
  {
    if |xs| == 0 {
      assert Join(sep, xs) == "";
    } else if |xs| == 1 {
      assert xs[1..] == [];
    } else {
      JoinPlaceholders(sep, xs[1..]);
      PercentsAppend(xs[0], sep);
      PercentsAppend(xs[0] + sep, Join(sep, xs[1..]));
      OnlyPlaceholdersAppend(xs[0], sep);
      OnlyPlaceholdersAppend(xs[0] + sep, Join(sep, xs[1..]));
    }
  }

  lemma {:induction false} SumPercentsAppend(xs: seq<string>, ys: seq<string>)
    ensures SumPercents(xs + ys) == SumPercents(xs) + SumPercents(ys)
    decreases |xs|
  {
    if |xs| == 0 {
      assert xs + ys == ys;
    } else {
      assert (xs + ys)[1..] == xs[1..] + ys;
      SumPercentsAppend(xs[1..], ys);
    }
  }
}
