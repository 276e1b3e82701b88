/**
  The string operations the pipeline takes from Python's `str` type:
  prefix and suffix tests, slicing off a suffix, `str(int)`, the ordering
  used by `sorted`, and `split`/`join` on a one-character separator.
  A Python `str` is a `seq<char>` here and `<` on characters is code-point order,
  as in Python.
 */
module Text {

  /** Concatenation regroups freely */
  lemma AppendAssoc(a: string, b: string, c: string)
    ensures a + (b + c) == (a + b) + c
  {
  }

  /** `s.startswith(prefix)` */
  predicate StartsWith(s: string, prefix: string) {
    |prefix| <= |s| && s[..|prefix|] == prefix
  }

  /** `s.endswith(suffix)` */
  predicate EndsWith(s: string, suffix: string) {
    |suffix| <= |s| && s[|s| - |suffix|..] == suffix
  }

  /** `part in s` */
  predicate Contains(s: string, part: string)
    decreases |s|
  {
    StartsWith(s, part) || (|s| > 0 && Contains(s[1..], part))
  }

  /** `s[:-k]` for a positive k: `s` without its last `k` characters, or "" when `s` is shorter */
  function DropLast(s: string, k: nat): (r: string)
    requires k > 0
    ensures r <= s
    ensures |r| == if |s| >= k then |s| - k else 0
  {
    if |s| >= k then s[..|s| - k] else ""
  }

  lemma {:induction false} ContainsAt(s: string, part: string, i: nat)
    requires i + |part| <= |s| && s[i..i + |part|] == part
    ensures Contains(s, part)
    decreases i
  {
    if i > 0 {
      assert s[1..][i - 1..i - 1 + |part|] == part;
      ContainsAt(s[1..], part, i - 1);
    }
  }

  lemma {:induction false} ContainsPrefix(s: string, t: string, part: string)
    requires Contains(s, part)
    ensures Contains(s + t, part)
    decreases |s|
  {
    if StartsWith(s, part) {
      assert (s + t)[..|part|] == s[..|part|];
    } else {
      assert (s + t)[1..] == s[1..] + t;
      ContainsPrefix(s[1..], t, part);
    }
  }

  /** A suffix of `x` followed by the first character of `y` occurs in `x + y` */
  lemma ContainsAtJoint(x: string, w: string, y: string)
    requires EndsWith(x, w) && y != []
    ensures Contains(x + y, w + [y[0]])
  {
    var i := |x| - |w|;
    assert (x + y)[i..i + |w| + 1] == w + [y[0]];
    ContainsAt(x + y, w + [y[0]], i);
  }

  // ---------------------------------------------------------------------------
  // str(int)

  function DigitChar(d: nat): (c: char)
    requires d < 10
    ensures '0' <= c <= '9'
  {
    "0123456789"[d]
  }

  /** Decimal digits of a natural number, most significant first, no leading zeros */
  function NatToDecimal(n: nat): (r: string)
    ensures |r| > 0
    ensures forall i :: 0 <= i < |r| ==> '0' <= r[i] <= '9'
    ensures |r| > 1 ==> r[0] != '0'
    decreases n
  {
    if n < 10 then [DigitChar(n)] else NatToDecimal(n / 10) + [DigitChar(n % 10)]
  }

  /** `str(i)` for a Python int */
  function IntToString(i: int): (r: string)
    ensures |r| > 0
    ensures forall k :: 0 <= k < |r| ==> r[k] == '-' || '0' <= r[k] <= '9'
    ensures (r[0] == '-') <==> i < 0
  {
    if i < 0 then "-" + NatToDecimal(-i) else NatToDecimal(i)
  }

  // ---------------------------------------------------------------------------
  // The order `sorted` uses on str: lexicographic by code point, a proper prefix first

  predicate Less(a: string, b: string)
    decreases |a|
  {
    if a == [] then b != []
    else b != [] && (a[0] < b[0] || (a[0] == b[0] && Less(a[1..], b[1..])))
  }

  lemma {:induction false} LessIrreflexive(a: string)
    ensures !Less(a, a)
    decreases |a|
  {
    if a != [] { LessIrreflexive(a[1..]); }
  }

  lemma {:induction false} LessTransitive(a: string, b: string, c: string)
    requires Less(a, b) && Less(b, c)
    ensures Less(a, c)
    decreases |a|
  {
    if a != [] && a[0] == b[0] && b[0] == c[0] {
      LessTransitive(a[1..], b[1..], c[1..]);
    }
  }

  lemma {:induction false} LessTotal(a: string, b: string)
    ensures a == b || Less(a, b) || Less(b, a)
    decreases |a|
  {
    if a != [] && b != [] && a[0] == b[0] {
      LessTotal(a[1..], b[1..]);
      if a[1..] == b[1..] {
        assert a == [a[0]] + a[1..] && b == [b[0]] + b[1..];
      }
    }
  }

  lemma LessAsymmetric(a: string, b: string)
    requires Less(a, b)
    ensures !Less(b, a)
  {
    if Less(b, a) {
      LessTransitive(a, b, a);
      LessIrreflexive(a);
    }
  }

  // ---------------------------------------------------------------------------
  // sorted(set(xs))

  function Elements(s: seq<string>): set<string> {
    set x | x in s
  }

  lemma ElementsSnoc(s: seq<string>, i: nat)
    requires i < |s|
    ensures Elements(s[..i + 1]) == Elements(s[..i]) + {s[i]}
  {
    assert s[..i + 1] == s[..i] + [s[i]];
  }

  lemma ElementsAppend(a: seq<string>, b: seq<string>)
    ensures Elements(a + b) == Elements(a) + Elements(b)
  {
  }

  predicate StrictlySorted(s: seq<string>) {
    forall i, j :: 0 <= i < j < |s| ==> Less(s[i], s[j])
  }

  /** Insert `x` into a strictly increasing sequence unless it is already there */
  function InsertDistinct(x: string, s: seq<string>): (r: seq<string>)
    requires StrictlySorted(s)
    ensures StrictlySorted(r)
    ensures Elements(r) == Elements(s) + {x}
    decreases |s|
  {
    if s == [] then [x]
    else if x == s[0] then s
    else if Less(x, s[0]) then
      assert forall j :: 0 < j < |s| ==> Less(x, s[j]) by {
        forall j | 0 < j < |s| ensures Less(x, s[j]) { LessTransitive(x, s[0], s[j]); }
      }
      [x] + s
    else
      LessTotal(x, s[0]);
      var rest := InsertDistinct(x, s[1..]);
      assert Elements(s) == {s[0]} + Elements(s[1..]);
      assert forall j :: 0 <= j < |rest| ==> Less(s[0], rest[j]) by {
        forall j | 0 <= j < |rest| ensures Less(s[0], rest[j]) {
          assert rest[j] in Elements(rest);
        }
      }
      assert Elements([s[0]] + rest) == {s[0]} + Elements(rest);
      [s[0]] + rest
  }

  /** `sorted(set(xs))`: the distinct elements of `xs` in increasing order */
  function SortedDistinct(xs: seq<string>): (r: seq<string>)
    ensures StrictlySorted(r)
    ensures Elements(r) == Elements(xs)
    decreases |xs|
  {
    if xs == [] then []
    else
      assert Elements(xs) == {xs[0]} + Elements(xs[1..]);
      InsertDistinct(xs[0], SortedDistinct(xs[1..]))
  }

  /** A strictly increasing sequence is determined by its set of elements */
  lemma {:induction false} StrictlySortedUnique(a: seq<string>, b: seq<string>)
    requires StrictlySorted(a) && StrictlySorted(b)
    requires Elements(a) == Elements(b)
    ensures a == b
    decreases |a|
  {
    if b != [] { assert b[0] in Elements(b); }
    if a != [] {
      assert b != [] by { assert a[0] in Elements(a); }
      assert a[0] in Elements(b);
      assert b[0] in Elements(a);
      var i :| 0 <= i < |a| && a[i] == b[0];
      var j :| 0 <= j < |b| && b[j] == a[0];
      if j > 0 {
        // b[0] < b[j] == a[0], yet a[0] <= a[i] == b[0]
        if i > 0 { LessAsymmetric(a[0], a[i]); } else { LessIrreflexive(a[0]); }
        assert false;
      }
      assert a[0] == b[0];
      assert a[0] !in Elements(a[1..]) by {
        if a[0] in Elements(a[1..]) {
          var k :| 0 <= k < |a[1..]| && a[1..][k] == a[0];
          LessIrreflexive(a[0]);
        }
      }
      assert b[0] !in Elements(b[1..]) by {
        if b[0] in Elements(b[1..]) {
          var k :| 0 <= k < |b[1..]| && b[1..][k] == b[0];
          LessIrreflexive(b[0]);
        }
      }
      assert Elements(a) == {a[0]} + Elements(a[1..]);
      assert Elements(b) == {b[0]} + Elements(b[1..]);
      StrictlySortedUnique(a[1..], b[1..]);
      assert a == [a[0]] + a[1..] && b == [b[0]] + b[1..];
    }
  }

  /** `sorted(set(xs))` depends only on which strings occur in `xs` */
  lemma {:induction false} SortedDistinctBySet(xs: seq<string>, ys: seq<string>)
    requires Elements(xs) == Elements(ys)
    ensures SortedDistinct(xs) == SortedDistinct(ys)
  {
    StrictlySortedUnique(SortedDistinct(xs), SortedDistinct(ys));
  }

  predicate Distinct(s: seq<string>) {
    forall i, j :: 0 <= i < j < |s| ==> s[i] != s[j]
  }

  lemma {:induction false} DistinctCardinality(s: seq<string>)
    requires Distinct(s)
    ensures |Elements(s)| == |s|
    decreases |s|
  {
    if s != [] {
      assert Elements(s) == {s[0]} + Elements(s[1..]);
      assert s[0] !in Elements(s[1..]);
      DistinctCardinality(s[1..]);
    }
  }

  /** For a list without repetitions (a directory listing, a glob result), `sorted`
      and `sorted(set(..))` agree: every element is kept */
  lemma SortedDistinctKeepsAll(xs: seq<string>)
    requires Distinct(xs)
    ensures |SortedDistinct(xs)| == |xs|
  {
    var r := SortedDistinct(xs);
    assert Distinct(r) by {
      forall i, j | 0 <= i < j < |r| ensures r[i] != r[j] {
        if r[i] == r[j] { LessIrreflexive(r[i]); }
      }
    }
    DistinctCardinality(r);
    DistinctCardinality(xs);
  }

  // ---------------------------------------------------------------------------
  // str.split(sep) and sep.join(tokens) for a one-character separator

  /** `s.split(sep)`: never empty; "" splits to [""] */
  function SplitOn(s: string, sep: char): (r: seq<string>)
    ensures |r| >= 1
    ensures forall t :: t in r ==> sep !in t
    decreases |s|
  {
    if s == [] then [""]
    else
      var rest := SplitOn(s[1..], sep);
      if s[0] == sep then [""] + rest
      else [[s[0]] + rest[0]] + rest[1..]
  }

  /** `sep.join(tokens)` for a non-empty token list */
  function JoinOn(tokens: seq<string>, sep: char): string
    requires |tokens| >= 1
    decreases |tokens|
  {
    if |tokens| == 1 then tokens[0] else tokens[0] + [sep] + JoinOn(tokens[1..], sep)
  }

  /** Joining the pieces of a split gives back the string */
  lemma {:induction false} JoinSplit(s: string, sep: char)
    ensures JoinOn(SplitOn(s, sep), sep) == s
    decreases |s|
  {
    if s != [] {
      var rest := SplitOn(s[1..], sep);
      JoinSplit(s[1..], sep);
      if s[0] == sep {
        assert ([""] + rest)[1..] == rest;
        assert s == [sep] + s[1..];
      } else {
        var r := [[s[0]] + rest[0]] + rest[1..];
        if |rest| == 1 {
          assert s == [s[0]] + s[1..];
        } else {
          assert r[1..] == rest[1..];
          assert JoinOn(rest, sep) == rest[0] + [sep] + JoinOn(rest[1..], sep);
          assert s == [s[0]] + s[1..];
        }
      }
    }
  }

  lemma {:induction false} SplitOnWithoutSeparator(a: string, sep: char)
    requires sep !in a
    ensures SplitOn(a, sep) == [a]
    decreases |a|
  {
    if a != [] {
      SplitOnWithoutSeparator(a[1..], sep);
      assert a == [a[0]] + a[1..];
    }
  }

  lemma {:induction false} SplitOnFirstPiece(a: string, sep: char, rest: string)
    requires sep !in a
    ensures SplitOn(a + [sep] + rest, sep) == [a] + SplitOn(rest, sep)
    decreases |a|
  {
    var s := a + [sep] + rest;
    if a == [] {
      assert s == [sep] + rest;
      assert s[1..] == rest;
    } else {
      assert s[1..] == a[1..] + [sep] + rest;
      SplitOnFirstPiece(a[1..], sep, rest);
      assert a == [a[0]] + a[1..];
    }
  }

  /** Splitting a join of separator-free tokens gives the tokens back */
  lemma {:induction false} SplitJoin(tokens: seq<string>, sep: char)
    requires |tokens| >= 1
    requires forall t :: t in tokens ==> sep !in t
    ensures SplitOn(JoinOn(tokens, sep), sep) == tokens
    decreases |tokens|
  {
    assert tokens[0] in tokens;
    if |tokens| == 1 {
      SplitOnWithoutSeparator(tokens[0], sep);
    } else {
      assert forall t :: t in tokens[1..] ==> t in tokens;
      SplitJoin(tokens[1..], sep);
      SplitOnFirstPiece(tokens[0], sep, JoinOn(tokens[1..], sep));
    }
  }

  /** Every piece of a split is made of characters of the string */
  lemma {:induction false} SplitPiecesAvoid(s: string, sep: char, c: char)
    requires c !in s
    ensures forall t :: t in SplitOn(s, sep) ==> c !in t
    decreases |s|
  {
    if s != [] {
      SplitPiecesAvoid(s[1..], sep, c);
      var rest := SplitOn(s[1..], sep);
      assert rest[0] in rest;
      assert forall t :: t in rest[1..] ==> t in rest;
    }
  }

  /** Joining pieces that avoid `c` with a separator other than `c` avoids `c` */
  lemma {:induction false} JoinAvoids(tokens: seq<string>, sep: char, c: char)
    requires |tokens| >= 1 && sep != c
    requires forall t :: t in tokens ==> c !in t
    ensures c !in JoinOn(tokens, sep)
    decreases |tokens|
  {
    if |tokens| > 1 {
      assert tokens[0] in tokens;
      assert forall t :: t in tokens[1..] ==> t in tokens;
      JoinAvoids(tokens[1..], sep, c);
    }
  }
}
