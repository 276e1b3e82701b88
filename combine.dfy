/**
  `get_combined_file_name`: the name of the file step 5 writes when it
  concatenates the per-run read files. Each input's file name is split on '_';
  the token lists are zipped column by column (as far as the shortest one
  goes), each column becomes its sorted distinct values, and all the values
  are joined with '_' again.
 */
module Combine {
  import opened Text
  import opened Paths
  import opened Errors

  /** `os.path.basename(fp).split('_')` for every input path */
  function TokenRows(paths: seq<string>): (rows: seq<seq<string>>)
    ensures |rows| == |paths|
  {
    seq(|paths|, i requires 0 <= i < |paths| => SplitOn(Basename(paths[i]), '_'))
  }

  /** Each row is non-empty, its tokens hold neither '_' nor '/', and joined with '_'
      they give back the input's file name */
  lemma TokenRowsSpec(paths: seq<string>, i: nat)
    requires i < |paths|
    ensures |TokenRows(paths)[i]| >= 1
    ensures JoinOn(TokenRows(paths)[i], '_') == Basename(paths[i])
    ensures forall t :: t in TokenRows(paths)[i] ==> '_' !in t && '/' !in t
  {
    JoinSplit(Basename(paths[i]), '_');
    SplitPiecesAvoid(Basename(paths[i]), '_', '/');
  }

  /** The length `zip` stops at: the length of the shortest row */
  function MinLen(rows: seq<seq<string>>): (m: nat)
    requires |rows| > 0
    ensures forall i :: 0 <= i < |rows| ==> m <= |rows[i]|
    ensures exists i :: 0 <= i < |rows| && |rows[i]| == m
    decreases |rows|
  {
    if |rows| == 1 then |rows[0]|
    else
      var m := MinLen(rows[1..]);
      if |rows[0]| <= m then |rows[0]| else
        assert forall i :: 1 <= i < |rows| ==> rows[i] == rows[1..][i - 1];
        m
  }

  /** The `k`-th tuple `zip` produces */
  function Column(rows: seq<seq<string>>, k: nat): (c: seq<string>)
    requires |rows| > 0 && k < MinLen(rows)
    ensures |c| == |rows|
    ensures forall i :: 0 <= i < |rows| ==> c[i] == rows[i][k]
  {
    seq(|rows|, i requires 0 <= i < |rows| => rows[i][k])
  }

  /** `map(sorted_unique_elements, zip(*rows))` */
  function Groups(rows: seq<seq<string>>): (g: seq<seq<string>>)
    requires |rows| > 0
    ensures |g| == MinLen(rows)
    ensures forall k :: 0 <= k < |g| ==> StrictlySorted(g[k]) && Elements(g[k]) == Elements(Column(rows, k))
  {
    seq(MinLen(rows), k requires 0 <= k < MinLen(rows) => SortedDistinct(Column(rows, k)))
  }

  /** `itertools.chain.from_iterable` */
  function Flatten(groups: seq<seq<string>>): seq<string>
    decreases |groups|
  {
    if groups == [] then [] else groups[0] + Flatten(groups[1..])
  }

  /** A token of the flattened list comes from one of the groups */
  lemma {:induction false} FlattenMember(groups: seq<seq<string>>, t: string)
    requires t in Flatten(groups)
    ensures exists k :: 0 <= k < |groups| && t in groups[k]
    decreases |groups|
  {
    if t !in groups[0] {
      FlattenMember(groups[1..], t);
      var k :| 0 <= k < |groups[1..]| && t in groups[1..][k];
      assert t in groups[k + 1];
    }
  }

  /** `get_combined_file_name(input_fp_list)` */
  function CombinedFileName(paths: seq<string>): (r: Result<string>)
    ensures r.Failure? <==> paths == []
    ensures r.Failure? ==> r.error == EmptyCombineInput
  {
    if paths == [] then Failure(EmptyCombineInput)
    else
      FlattenGroupsNonEmpty(paths);
      Success(JoinOn(Flatten(Groups(TokenRows(paths))), '_'))
  }

  // ---------------------------------------------------------------------------
  // What the name is made of

  /** Every row has at least one token, so every zipped column exists and is
      non-empty: the joined token list is never empty */
  lemma {:induction false} FlattenGroupsNonEmpty(paths: seq<string>)
    requires paths != []
    ensures |Flatten(Groups(TokenRows(paths)))| >= MinLen(TokenRows(paths)) >= 1
  {
    var rows := TokenRows(paths);
    var g := Groups(rows);
    assert |rows[0]| >= 1;
    forall k | 0 <= k < |g| ensures |g[k]| >= 1 {
      var c := Column(rows, k);
      assert c[0] in Elements(c);
      assert Elements(g[k]) != {};
    }
    FlattenLength(g);
  }

  lemma {:induction false} FlattenLength(groups: seq<seq<string>>)
    requires forall k :: 0 <= k < |groups| ==> |groups[k]| >= 1
    ensures |Flatten(groups)| >= |groups|
    decreases |groups|
  {
    if groups != [] {
      FlattenLength(groups[1..]);
    }
  }

  /** A token of the result is a '_'-separated piece of one input's file name, which has no '/' */
  lemma TokenAvoidsSlash(paths: seq<string>, t: string)
    requires paths != []
    requires t in Flatten(Groups(TokenRows(paths)))
    ensures '/' !in t
  {
    var rows := TokenRows(paths);
    var g := Groups(rows);
    FlattenMember(g, t);
    var k :| 0 <= k < |g| && t in g[k];
    assert t in Elements(g[k]);
    var i :| 0 <= i < |rows| && Column(rows, k)[i] == t;
    TokenRowsSpec(paths, i);
    assert rows[i][k] in rows[i];
  }

  /** Every token of the result comes from one of the inputs' names, so the name has
      no '/' and lies in the stage's output directory */
  lemma CombinedFileNameHasNoSlash(paths: seq<string>)
    requires paths != []
    ensures '/' !in CombinedFileName(paths).value
  {
    var tokens := Flatten(Groups(TokenRows(paths)));
    FlattenGroupsNonEmpty(paths);
    forall t | t in tokens ensures '/' !in t {
      TokenAvoidsSlash(paths, t);
    }
    JoinAvoids(tokens, '_', '/');
  }

  /** Sorting a column whose values are all `x` gives `[x]` */
  lemma SortedDistinctConstant(c: seq<string>, x: string)
    requires |c| > 0 && forall i :: 0 <= i < |c| ==> c[i] == x
    ensures SortedDistinct(c) == [x]
  {
    assert c[0] in c;
    assert Elements(c) == {x};
    assert Elements([x]) == {x};
    StrictlySortedUnique(SortedDistinct(c), [x]);
  }

  lemma {:induction false} FlattenSingletons(groups: seq<seq<string>>, r: seq<string>)
    requires |groups| == |r|
    requires forall k :: 0 <= k < |groups| ==> groups[k] == [r[k]]
    ensures Flatten(groups) == r
    decreases |groups|
  {
    if groups != [] {
      FlattenSingletons(groups[1..], r[1..]);
      assert r == [r[0]] + r[1..];
    }
  }

  /** Files that all have the same name (one file, or the same run repeated in several
      directories) are combined under that name */
  lemma CombinedFileNameOfOneName(paths: seq<string>, b: string)
    requires paths != []
    requires forall i :: 0 <= i < |paths| ==> Basename(paths[i]) == b
    ensures CombinedFileName(paths) == Success(b)
  {
    var rows := TokenRows(paths);
    var r := SplitOn(b, '_');
    assert forall i :: 0 <= i < |rows| ==> rows[i] == r;
    assert MinLen(rows) == |r|;
    var g := Groups(rows);
    forall k | 0 <= k < |g| ensures g[k] == [r[k]] {
      SortedDistinctConstant(Column(rows, k), r[k]);
    }
    FlattenSingletons(g, r);
    JoinSplit(b, '_');
  }

  // ---------------------------------------------------------------------------
  // The name depends only on which file names are combined

  function BasenameSet(paths: seq<string>): set<string> {
    set i | 0 <= i < |paths| :: Basename(paths[i])
  }

  lemma MinLenBySet(rows: seq<seq<string>>, rows': seq<seq<string>>)
    requires |rows| > 0 && |rows'| > 0
    requires forall r :: r in rows <==> r in rows'
    ensures MinLen(rows) == MinLen(rows')
  {
    var m, m' := MinLen(rows), MinLen(rows');
    var i :| 0 <= i < |rows| && |rows[i]| == m;
    var i' :| 0 <= i' < |rows'| && |rows'[i']| == m';
    assert rows[i] in rows';
    assert rows'[i'] in rows;
  }

  lemma {:induction false} ColumnBySet(rows: seq<seq<string>>, rows': seq<seq<string>>, k: nat)
    requires |rows| > 0 && |rows'| > 0
    requires forall r :: r in rows <==> r in rows'
    requires k < MinLen(rows) && MinLen(rows) == MinLen(rows')
    ensures Elements(Column(rows, k)) == Elements(Column(rows', k))
  {
    var c, c' := Column(rows, k), Column(rows', k);
    forall t | t in Elements(c) ensures t in Elements(c') {
      var i :| 0 <= i < |c| && c[i] == t;
      assert rows[i] in rows';
      var j :| 0 <= j < |rows'| && rows'[j] == rows[i];
      assert c'[j] == t;
    }
    forall t | t in Elements(c') ensures t in Elements(c) {
      var j :| 0 <= j < |c'| && c'[j] == t;
      assert rows'[j] in rows;
      var i :| 0 <= i < |rows| && rows[i] == rows'[j];
      assert c[i] == t;
    }
  }

  lemma RowsBySet(paths: seq<string>, paths': seq<string>)
    requires BasenameSet(paths) == BasenameSet(paths')
    ensures forall r :: r in TokenRows(paths) <==> r in TokenRows(paths')
  {
    var rows, rows' := TokenRows(paths), TokenRows(paths');
    forall r | r in rows ensures r in rows' {
      var i :| 0 <= i < |rows| && rows[i] == r;
      assert Basename(paths[i]) in BasenameSet(paths');
      var j :| 0 <= j < |paths'| && Basename(paths'[j]) == Basename(paths[i]);
      assert rows'[j] == r;
    }
    forall r | r in rows' ensures r in rows {
      var j :| 0 <= j < |rows'| && rows'[j] == r;
      assert Basename(paths'[j]) in BasenameSet(paths);
      var i :| 0 <= i < |paths| && Basename(paths[i]) == Basename(paths'[j]);
      assert rows[i] == r;
    }
  }

  lemma GroupsBySet(rows: seq<seq<string>>, rows': seq<seq<string>>)
    requires |rows| > 0 && |rows'| > 0
    requires forall r :: r in rows <==> r in rows'
    ensures Groups(rows) == Groups(rows')
  {
    MinLenBySet(rows, rows');
    var g, g' := Groups(rows), Groups(rows');
    forall k | 0 <= k < |g| ensures g[k] == g'[k] {
      ColumnBySet(rows, rows', k);
      StrictlySortedUnique(g[k], g'[k]);
    }
  }

  /** Reordering the inputs, repeating one or naming the same file from another
      directory does not change the combined name */
  lemma {:induction false} CombinedFileNameBySet(paths: seq<string>, paths': seq<string>)
    requires BasenameSet(paths) == BasenameSet(paths')
    ensures CombinedFileName(paths) == CombinedFileName(paths')
  {
    if paths != [] { assert Basename(paths[0]) in BasenameSet(paths); }
    if paths' != [] { assert Basename(paths'[0]) in BasenameSet(paths'); }
    if paths != [] && paths' != [] {
      RowsBySet(paths, paths');
      GroupsBySet(TokenRows(paths), TokenRows(paths'));
    }
  }

  lemma ThreeParts(g: seq<seq<string>>)
    requires |g| == 3
    ensures g == [g[0], g[1], g[2]]
  {
  }

  lemma TwoRunsGroups(sample: string, run1: string, run2: string, tail: string)
    requires Less(run1, run2)
    ensures Groups([[sample, run1, tail], [sample, run2, tail]]) == [[sample], [run1, run2], [tail]]
  {
    var rows := [[sample, run1, tail], [sample, run2, tail]];
    assert MinLen(rows) == 3;
    var g := Groups(rows);
    assert g[0] == [sample] by {
      SortedDistinctConstant(Column(rows, 0), sample);
    }
    assert g[2] == [tail] by {
      SortedDistinctConstant(Column(rows, 2), tail);
    }
    assert g[1] == [run1, run2] by {
      assert Column(rows, 1) == [run1, run2];
      StrictlySortedUnique(g[1], [run1, run2]);
    }
    ThreeParts(g);
  }

  lemma FlattenThree(a: seq<string>, b: seq<string>, c: seq<string>)
    ensures Flatten([a, b, c]) == a + b + c
  {
    var g := [a, b, c];
    assert [c][1..] == [];
    assert Flatten([c]) == c;
    assert [b, c][1..] == [c];
    assert Flatten([b, c]) == b + c;
    assert g[1..] == [b, c];
  }

  lemma FlattenTwoRuns(sample: string, run1: string, run2: string, tail: string)
    ensures Flatten([[sample], [run1, run2], [tail]]) == [sample, run1, run2, tail]
  {
    FlattenThree([sample], [run1, run2], [tail]);
    assert [sample] + [run1, run2] == [sample, run1, run2];
    assert [sample, run1, run2] + [tail] == [sample, run1, run2, tail];
  }

  lemma TwoRunsRows(p1: string, p2: string, sample: string, run1: string, run2: string, tail: string)
    requires '_' !in sample && '_' !in run1 && '_' !in run2 && '_' !in tail
    requires Basename(p1) == JoinOn([sample, run1, tail], '_')
    requires Basename(p2) == JoinOn([sample, run2, tail], '_')
    ensures TokenRows([p1, p2]) == [[sample, run1, tail], [sample, run2, tail]]
  {
    SplitJoin([sample, run1, tail], '_');
    SplitJoin([sample, run2, tail], '_');
  }

  lemma CombinedFromTokens(paths: seq<string>, tokens: seq<string>)
    requires paths != [] && Flatten(Groups(TokenRows(paths))) == tokens
    ensures |tokens| >= 1
    ensures CombinedFileName(paths) == Success(JoinOn(tokens, '_'))
  {
    FlattenGroupsNonEmpty(paths);
  }

  /** Two runs of one sample, named `<sample>_<run>_<tail>`, are combined under
      `<sample>_<run1>_<run2>_<tail>` with the runs in sorted order */
  lemma {:induction false} CombinedFileNameTwoRuns(p1: string, p2: string, sample: string, run1: string, run2: string, tail: string)
    requires '_' !in sample && '_' !in run1 && '_' !in run2 && '_' !in tail
    requires Basename(p1) == JoinOn([sample, run1, tail], '_')
    requires Basename(p2) == JoinOn([sample, run2, tail], '_')
    requires Less(run1, run2)
    ensures CombinedFileName([p1, p2]) == Success(JoinOn([sample, run1, run2, tail], '_'))
  {
    var tokens := [sample, run1, run2, tail];
    var g := [[sample], [run1, run2], [tail]];
    assert Groups(TokenRows([p1, p2])) == g by {
      TwoRunsRows(p1, p2, sample, run1, run2, tail);
      TwoRunsGroups(sample, run1, run2, tail);
    }
    FlattenTwoRuns(sample, run1, run2, tail);
    CombinedFromTokens([p1, p2], tokens);
  }
}
