/**
  The file-naming conventions of the pipeline: the forward-read marker `_R1`/`_01`
  and its rewrites (mate file, trimmed files, merged prefix), the glob patterns
  each stage discovers its inputs with, and the names each stage derives for its
  outputs. Everything here is a pure function of names.
 */
module Naming {
  import opened Text
  import opened Paths

  // ---------------------------------------------------------------------------
  // The forward-read marker, regular expression `_([0R])1`

  /** The three characters at `i` are `_R1` or `_01` */
  predicate MarkerAt(s: string, i: int) {
    0 <= i && i + 3 <= |s| && s[i] == '_' && (s[i + 1] == '0' || s[i + 1] == 'R') && s[i + 2] == '1'
  }

  /** Position `i` holds the `1` of a marker */
  predicate MarkerEndsAt(s: string, i: int) {
    2 <= i && MarkerAt(s, i - 2)
  }

  /** The replacement functions the pipeline passes to `re.sub` with this pattern */
  datatype Replacement =
    | Mate              // '_{}2'          (mate file name)
    | Trimmed(digit: char) // '_trimmed_{}1' or '_trimmed_{}2' (step 2 outputs)
    | Merged            // '_merged'       (step 3 output prefix; the group is dropped)

  /** The text that replaces one match whose group `[0R]` is `group` */
  function ReplacementText(rep: Replacement, group: char): string {
    match rep
    case Mate => ['_', group, '2']
    case Trimmed(d) => "_trimmed_" + [group, d]
    case Merged => "_merged"
  }

  /** `re.sub(r'_([0R])1', repl, s)`: scan from the left, replace each match and go on after it */
  function SubMarker(s: string, rep: Replacement): string
    decreases |s|
  {
    if s == [] then []
    else if MarkerAt(s, 0) then ReplacementText(rep, s[1]) + SubMarker(s[3..], rep)
    else [s[0]] + SubMarker(s[1..], rep)
  }

  /** Without a marker, the substitution changes nothing */
  lemma {:induction false} SubMarkerNoMatch(s: string, rep: Replacement)
    requires forall i :: !MarkerAt(s, i)
    ensures SubMarker(s, rep) == s
    decreases |s|
  {
    if s != [] {
      assert forall i :: !MarkerAt(s[1..], i) by {
        forall i ensures !MarkerAt(s[1..], i) { assert !MarkerAt(s, i + 1); }
      }
      SubMarkerNoMatch(s[1..], rep);
    }
  }

  /** Without an underscore there is nothing to match */
  lemma SubMarkerNoUnderscore(s: string, rep: Replacement)
    requires '_' !in s
    ensures SubMarker(s, rep) == s
  {
    SubMarkerNoMatch(s, rep);
  }

  /** The substitution brings in no '/' */
  lemma {:induction false} SubMarkerAvoidsSlash(s: string, rep: Replacement)
    requires '/' !in s
    requires rep.Trimmed? ==> rep.digit != '/'
    ensures '/' !in SubMarker(s, rep)
    decreases |s|
  {
    if s != [] {
      if MarkerAt(s, 0) {
        assert forall c :: c in s[3..] ==> c in s;
        SubMarkerAvoidsSlash(s[3..], rep);
        assert '/' !in ReplacementText(rep, s[1]);
      } else {
        assert forall c :: c in s[1..] ==> c in s;
        SubMarkerAvoidsSlash(s[1..], rep);
      }
    }
  }

  /** One step of the scan where no match starts */
  lemma SubMarkerStep(s: string, rep: Replacement)
    requires s != [] && !MarkerAt(s, 0)
    ensures SubMarker(s, rep) == [s[0]] + SubMarker(s[1..], rep)
  {
  }

  /** One step of the scan where a match starts */
  lemma SubMarkerMatchStep(s: string, rep: Replacement)
    requires MarkerAt(s, 0)
    ensures SubMarker(s, rep) == ReplacementText(rep, s[1]) + SubMarker(s[3..], rep)
  {
  }

  /** A joined string starts with a marker exactly when its first part does */
  lemma MarkerAtJoint(s: string, t: string)
    requires s != []
    requires t == [] || (t[0] != '0' && t[0] != 'R' && t[0] != '1')
    ensures MarkerAt(s + t, 0) == MarkerAt(s, 0)
  {
    var st := s + t;
    if |s| >= 3 {
      assert st[0] == s[0] && st[1] == s[1] && st[2] == s[2];
    } else if |s| == 2 {
      assert t == [] || st[2] == t[0];
    } else {
      assert t == [] || st[1] == t[0];
    }
  }

  /** The joint step of `SubMarkerConcat` where a marker starts the first part */
  lemma SubMarkerConcatMatch(s: string, t: string, rep: Replacement)
    requires MarkerAt(s, 0) && MarkerAt(s + t, 0)
    requires SubMarker(s[3..] + t, rep) == SubMarker(s[3..], rep) + SubMarker(t, rep)
    ensures SubMarker(s + t, rep) == SubMarker(s, rep) + SubMarker(t, rep)
  {
    var rt := ReplacementText(rep, s[1]);
    assert (s + t)[1] == s[1];
    assert (s + t)[3..] == s[3..] + t;
    calc {
      SubMarker(s + t, rep);
    == { SubMarkerMatchStep(s + t, rep); }
      rt + (SubMarker(s[3..], rep) + SubMarker(t, rep));
    == { AppendAssoc(rt, SubMarker(s[3..], rep), SubMarker(t, rep)); }
      (rt + SubMarker(s[3..], rep)) + SubMarker(t, rep);
    == { SubMarkerMatchStep(s, rep); }
      SubMarker(s, rep) + SubMarker(t, rep);
    }
  }

  /** The joint step of `SubMarkerConcat` where no marker starts the first part */
  lemma SubMarkerConcatPlain(s: string, t: string, rep: Replacement)
    requires s != [] && !MarkerAt(s, 0) && !MarkerAt(s + t, 0)
    requires SubMarker(s[1..] + t, rep) == SubMarker(s[1..], rep) + SubMarker(t, rep)
    ensures SubMarker(s + t, rep) == SubMarker(s, rep) + SubMarker(t, rep)
  {
    assert (s + t)[0] == s[0];
    assert (s + t)[1..] == s[1..] + t;
    calc {
      SubMarker(s + t, rep);
    == { SubMarkerStep(s + t, rep); }
      [s[0]] + (SubMarker(s[1..], rep) + SubMarker(t, rep));
    == { AppendAssoc([s[0]], SubMarker(s[1..], rep), SubMarker(t, rep)); }
      ([s[0]] + SubMarker(s[1..], rep)) + SubMarker(t, rep);
    == { SubMarkerStep(s, rep); }
      SubMarker(s, rep) + SubMarker(t, rep);
    }
  }

  /** The substitution works piece by piece when no marker straddles the joint */
  lemma {:induction false} SubMarkerConcat(s: string, t: string, rep: Replacement)
    requires t == [] || (t[0] != '0' && t[0] != 'R' && t[0] != '1')
    ensures SubMarker(s + t, rep) == SubMarker(s, rep) + SubMarker(t, rep)
    decreases |s|
  {
    if s == [] {
      assert s + t == t;
    } else {
      MarkerAtJoint(s, t);
      if MarkerAt(s, 0) {
        SubMarkerConcat(s[3..], t, rep);
        SubMarkerConcatMatch(s, t, rep);
      } else {
        SubMarkerConcat(s[1..], t, rep);
        SubMarkerConcatPlain(s, t, rep);
      }
    }
  }

  // ---------------------------------------------------------------------------
  // get_associated_reverse_fastq_fp

  /** The reverse-read file name for a forward-read file name: every `_R1`/`_01` becomes `_R2`/`_02` */
  function MateName(basename: string): string {
    SubMarker(basename, Mate)
  }

  /** `get_associated_reverse_fastq_fp`: the mate name, in the same directory */
  function MatePath(forwardPath: string): string {
    JoinPath(Dirname(forwardPath), MateName(Basename(forwardPath)))
  }

  /** The mate name has the same length and differs exactly at the `1` of each marker, which becomes `2` */
  lemma {:induction false} MateNamePointwise(s: string)
    ensures |MateName(s)| == |s|
    ensures forall i :: 0 <= i < |s| ==> MateName(s)[i] == if MarkerEndsAt(s, i) then '2' else s[i]
    decreases |s|
  {
    if s != [] {
      var r := MateName(s);
      if MarkerAt(s, 0) {
        var rest := s[3..];
        MateNamePointwise(rest);
        assert r == ['_', s[1], '2'] + MateName(rest);
        forall i | 0 <= i < |s| ensures r[i] == if MarkerEndsAt(s, i) then '2' else s[i] {
          if i >= 3 {
            assert MarkerEndsAt(s, i) == MarkerEndsAt(rest, i - 3);
          }
        }
      } else {
        var rest := s[1..];
        MateNamePointwise(rest);
        forall i | 0 <= i < |s| ensures r[i] == if MarkerEndsAt(s, i) then '2' else s[i] {
          if i >= 1 {
            assert MarkerEndsAt(s, i) == MarkerEndsAt(rest, i - 1);
          }
        }
      }
    }
  }

  /** No marker is left in a mate name */
  lemma MateNameHasNoMarker(s: string)
    ensures forall i :: !MarkerAt(MateName(s), i)
  {
    MateNamePointwise(s);
    var r := MateName(s);
    forall i | MarkerAt(r, i) ensures false {
      // the `1` at i + 2 was not rewritten, so `_` and the group before it were not either
      assert !MarkerEndsAt(s, i + 2);
      assert !MarkerEndsAt(s, i + 1) && !MarkerEndsAt(s, i);
      assert MarkerAt(s, i);
      assert MarkerEndsAt(s, i + 2);
    }
  }

  /** Applying the mate rewrite twice is the same as once */
  lemma MateNameIdempotent(s: string)
    ensures MateName(MateName(s)) == MateName(s)
  {
    MateNameHasNoMarker(s);
    SubMarkerNoMatch(MateName(s), Mate);
  }

  lemma MateNameAvoidsSlash(s: string)
    requires '/' !in s
    ensures '/' !in MateName(s)
  {
    MateNamePointwise(s);
  }

  /** The mate path keeps the directory and rewrites only the file name; for a path
      that `join(*split(p))` reproduces, the length is kept too */
  lemma MatePathSameDirectory(p: string)
    ensures Dirname(MatePath(p)) == Dirname(p)
    ensures Basename(MatePath(p)) == MateName(Basename(p))
    ensures CanonicalPath(p) ==> |MatePath(p)| == |p|
  {
    MateNameAvoidsSlash(Basename(p));
    DirnameCanonical(p);
    DirnameOfJoin(Dirname(p), MateName(Basename(p)));
    MateNamePointwise(Basename(p));
  }

  /** Resolving the mate of a mate path changes nothing */
  lemma MatePathIdempotent(p: string)
    ensures MatePath(MatePath(p)) == MatePath(p)
  {
    MatePathSameDirectory(p);
    MateNameIdempotent(Basename(p));
  }

  /** The mate of `<stem>_R1<rest>` / `<stem>_01<rest>` when neither part holds an underscore */
  lemma MateNameOfSimpleName(stem: string, g: char, rest: string)
    requires '_' !in stem && '_' !in rest && (g == 'R' || g == '0')
    ensures MateName(stem + ['_', g, '1'] + rest) == stem + ['_', g, '2'] + rest
  {
    var t := ['_', g, '1'] + rest;
    assert stem + ['_', g, '1'] + rest == stem + t;
    SubMarkerConcat(stem, t, Mate);
    SubMarkerNoUnderscore(stem, Mate);
    assert MarkerAt(t, 0) && t[3..] == rest;
    SubMarkerNoUnderscore(rest, Mate);
  }

  // ---------------------------------------------------------------------------
  // Glob patterns. `glob` never matches a name that starts with '.' against a
  // pattern that does not, and every pattern here starts with '*'.

  predicate Hidden(name: string) {
    name != [] && name[0] == '.'
  }

  predicate FastqAt(s: string, j: int) {
    0 <= j && j + 6 <= |s| && s[j..j + 6] == ".fastq"
  }

  /** `fnmatch(name, '*_[R0]1*.fastq*')` under glob's hidden-file rule, as a specification */
  ghost predicate ForwardGlob(name: string) {
    !Hidden(name) && exists i, j :: MarkerAt(name, i) && FastqAt(name, j) && i + 3 <= j
  }

  function FastqFrom(s: string, j: nat): bool
    decreases |s| - j
  {
    if j + 6 > |s| then false else FastqAt(s, j) || FastqFrom(s, j + 1)
  }

  function MarkerThenFastqFrom(s: string, i: nat): bool
    decreases |s| - i
  {
    if i + 3 > |s| then false else (MarkerAt(s, i) && FastqFrom(s, i + 3)) || MarkerThenFastqFrom(s, i + 1)
  }

  /** The computable matcher for the forward-read glob */
  predicate IsForwardName(name: string) {
    !Hidden(name) && MarkerThenFastqFrom(name, 0)
  }

  lemma {:induction false} FastqFromSpec(s: string, j: nat)
    ensures FastqFrom(s, j) <==> exists k :: j <= k && FastqAt(s, k)
    decreases |s| - j
  {
    if j + 6 <= |s| {
      FastqFromSpec(s, j + 1);
      if exists k :: j <= k && FastqAt(s, k) {
        var k :| j <= k && FastqAt(s, k);
        assert k == j || (j + 1 <= k && FastqAt(s, k));
      }
    }
  }

  lemma {:induction false} MarkerThenFastqFromSpec(s: string, i: nat)
    ensures MarkerThenFastqFrom(s, i) <==> exists a, b :: i <= a && MarkerAt(s, a) && FastqAt(s, b) && a + 3 <= b
    decreases |s| - i
  {
    if i + 3 <= |s| {
      MarkerThenFastqFromSpec(s, i + 1);
      FastqFromSpec(s, i + 3);
      if MarkerAt(s, i) && FastqFrom(s, i + 3) {
        var b :| i + 3 <= b && FastqAt(s, b);
        assert MarkerAt(s, i) && FastqAt(s, b) && i + 3 <= b;
      } else if MarkerThenFastqFrom(s, i + 1) {
        var a, b :| i + 1 <= a && MarkerAt(s, a) && FastqAt(s, b) && a + 3 <= b;
        assert i <= a && MarkerAt(s, a) && FastqAt(s, b) && a + 3 <= b;
      }
      if exists a, b :: i <= a && MarkerAt(s, a) && FastqAt(s, b) && a + 3 <= b {
        var a, b :| i <= a && MarkerAt(s, a) && FastqAt(s, b) && a + 3 <= b;
        if a == i {
          assert FastqFrom(s, i + 3);
        } else {
          assert MarkerThenFastqFrom(s, i + 1);
        }
      }
    }
  }

  /** The matcher accepts exactly the names the glob pattern describes */
  lemma ForwardNameMatchesGlob(name: string)
    ensures IsForwardName(name) <==> ForwardGlob(name)
  {
    MarkerThenFastqFromSpec(name, 0);
  }

  /** `*.fastq*` (step 1 inputs) */
  predicate IsFastqName(name: string) {
    !Hidden(name) && Contains(name, ".fastq")
  }

  /** `*.assembled.fastq.gz` (step 4 inputs, step 9 reads) */
  predicate IsAssembledName(name: string) {
    !Hidden(name) && EndsWith(name, ".assembled.fastq.gz")
  }

  /** `*.assembled.*.fastq.gz` (step 5 and step 6 inputs) */
  predicate IsAssembledStarName(name: string) {
    !Hidden(name) && EndsWith(name, ".fastq.gz") && Contains(name[..|name| - 9], ".assembled.")
  }

  /** `*.fasta.gz` (step 7 inputs) */
  predicate IsFastaGzName(name: string) {
    !Hidden(name) && EndsWith(name, ".fasta.gz")
  }

  /** `*.fasta` (step 8 inputs) */
  predicate IsFastaName(name: string) {
    !Hidden(name) && EndsWith(name, ".fasta")
  }

  /** `*rad3.uchime.fasta` (step 9's OTU file) */
  predicate IsOtuFastaName(name: string) {
    !Hidden(name) && EndsWith(name, "rad3.uchime.fasta")
  }

  /** `step_03*` (step 9 looks into the merge stage's directory) */
  predicate IsMergeStageDirName(name: string) {
    !Hidden(name) && StartsWith(name, "step_03")
  }

  /** `*.assembled.*.fastq` (step 4 compresses these) */
  predicate IsAssembledStarFastqName(name: string) {
    !Hidden(name) && EndsWith(name, ".fastq") && Contains(name[..|name| - 6], ".assembled.")
  }

  /** `<prefix>.*.fastq` (step 3 compresses PEAR's outputs). The pattern starts with the
      literal prefix, so glob's hidden-file rule never excludes a name it spells out. */
  predicate IsMergedOutputName(prefix: string, name: string) {
    |name| >= |prefix| + 7 && StartsWith(name, prefix + ".") && EndsWith(name, ".fastq")
  }

  /** The glob patterns of the pipeline, as the final component of `os.path.join(dir, pattern)` */
  datatype Pattern =
    | AnyFastq                    // '*.fastq*'
    | ForwardReads                // '*_[R0]1*.fastq*'
    | MergedOutputs(prefix: string) // '<prefix>.*.fastq'
    | Assembled                   // '*.assembled.fastq.gz'
    | AssembledStarFastq          // '*.assembled.*.fastq'
    | AssembledStar               // '*.assembled.*.fastq.gz'
    | Fasta                       // '*.fasta'
    | FastaGz                     // '*.fasta.gz'
    | OtuFasta                    // '*rad3.uchime.fasta'
    | MergeStageDir               // 'step_03*'

  function PatternText(p: Pattern): string {
    match p
    case AnyFastq => "*.fastq*"
    case ForwardReads => "*_[R0]1*.fastq*"
    case MergedOutputs(prefix) => prefix + ".*.fastq"
    case Assembled => "*.assembled.fastq.gz"
    case AssembledStarFastq => "*.assembled.*.fastq"
    case AssembledStar => "*.assembled.*.fastq.gz"
    case Fasta => "*.fasta"
    case FastaGz => "*.fasta.gz"
    case OtuFasta => "*rad3.uchime.fasta"
    case MergeStageDir => "step_03*"
  }

  /** No pattern but step 3's, whose prefix comes from a file name, holds a '/' */
  lemma PatternPlain(p: Pattern)
    requires !p.MergedOutputs?
    ensures '/' !in PatternText(p)
  {
    var t := PatternText(p);
    assert forall i :: 0 <= i < |t| ==> t[i] != '/';
  }

  /** `fnmatch` of a directory entry against the pattern, under glob's hidden-file rule */
  predicate Matches(p: Pattern, name: string) {
    match p
    case AnyFastq => IsFastqName(name)
    case ForwardReads => IsForwardName(name)
    case MergedOutputs(prefix) => IsMergedOutputName(prefix, name)
    case Assembled => IsAssembledName(name)
    case AssembledStarFastq => IsAssembledStarFastqName(name)
    case AssembledStar => IsAssembledStarName(name)
    case Fasta => IsFastaName(name)
    case FastaGz => IsFastaGzName(name)
    case OtuFasta => IsOtuFastaName(name)
    case MergeStageDir => IsMergeStageDirName(name)
  }

  /** The files `gzip_files` is handed never end in `.gz` already, so compressing one
      never overwrites or removes another one's result */
  lemma GzipTargetsAreUncompressed(p: Pattern, name: string)
    requires p.MergedOutputs? || p == AssembledStarFastq || p == Fasta
    requires Matches(p, name)
    ensures !EndsWith(name, ".gz")
  {
    if p == Fasta {
      assert name[|name| - 1] == 'a';
    } else {
      assert name[|name| - 1] == 'q';
    }
  }

  // ---------------------------------------------------------------------------
  // Literal substitutions: `re.sub(pattern, repl, s)` with a pattern that is a
  // literal string, unanchored or anchored with `$`

  predicate OccursAt(s: string, pat: string, i: int) {
    0 <= i && i + |pat| <= |s| && s[i..i + |pat|] == pat
  }

  /** Every non-overlapping occurrence of `pat`, from the left, replaced by `r` */
  function ReplaceAll(s: string, pat: string, r: string): string
    requires |pat| > 0
    decreases |s|
  {
    if |s| < |pat| then s
    else if OccursAt(s, pat, 0) then r + ReplaceAll(s[|pat|..], pat, r)
    else [s[0]] + ReplaceAll(s[1..], pat, r)
  }

  /** Dropping the first character moves every occurrence one place to the left */
  lemma OccursAtShift(s: string, pat: string, i: nat)
    requires s != []
    ensures OccursAt(s[1..], pat, i) == OccursAt(s, pat, i + 1)
  {
    if i + |pat| <= |s| - 1 {
      assert s[1..][i..i + |pat|] == s[i + 1..i + 1 + |pat|];
    }
  }

  /** When the only occurrence is the final one, exactly that suffix is replaced */
  lemma {:induction false} ReplaceAllFinal(stem: string, pat: string, r: string)
    requires |pat| > 0
    requires forall i :: 0 <= i < |stem| ==> !OccursAt(stem + pat, pat, i)
    ensures ReplaceAll(stem + pat, pat, r) == stem + r
    decreases |stem|
  {
    var s := stem + pat;
    if stem == [] {
      assert s == pat && s[|pat|..] == [];
    } else {
      assert !OccursAt(s, pat, 0);
      assert s[1..] == stem[1..] + pat;
      forall i | 0 <= i < |stem[1..]| ensures !OccursAt(s[1..], pat, i) {
        OccursAtShift(s, pat, i);
      }
      ReplaceAllFinal(stem[1..], pat, r);
      assert ReplaceAll(s, pat, r) == [s[0]] + (stem[1..] + r);
      assert [stem[0]] + stem[1..] == stem;
    }
  }

  /** `re.sub(pat + '$', r, s)`: `$` matches at the end and just before a final newline */
  function ReplaceAtEnd(s: string, pat: string, r: string): string {
    if EndsWith(s, pat) then s[..|s| - |pat|] + r
    else if EndsWith(s, pat + "\n") then s[..|s| - |pat| - 1] + r + "\n"
    else s
  }

  lemma ReplaceAtEndSuffix(s: string, pat: string, r: string)
    requires EndsWith(s, pat)
    ensures ReplaceAtEnd(s, pat, r) == s[..|s| - |pat|] + r
    ensures EndsWith(ReplaceAtEnd(s, pat, r), r)
  {
  }

  /** Two names carrying the suffix are told apart after the suffix is replaced */
  lemma ReplaceAtEndInjective(s1: string, s2: string, pat: string, r: string)
    requires EndsWith(s1, pat) && EndsWith(s2, pat)
    requires ReplaceAtEnd(s1, pat, r) == ReplaceAtEnd(s2, pat, r)
    ensures s1 == s2
  {
    var a, b := s1[..|s1| - |pat|], s2[..|s2| - |pat|];
    assert a + r == b + r;
    assert |a| == |b|;
    assert a == (a + r)[..|a|] == (b + r)[..|b|] == b;
    assert s1 == a + pat && s2 == b + pat;
  }

  // ---------------------------------------------------------------------------
  // Output names, stage by stage

  /** Step 1: a `.gz` input is copied under its own name, anything else is compressed to `<name>.gz` */
  function CompressedCopyName(inputPath: string): (r: string)
    ensures '/' !in r
  {
    if EndsWith(inputPath, ".gz") then Basename(inputPath) else Basename(inputPath) + ".gz"
  }

  lemma BasenameKeepsSuffix(p: string, suffix: string)
    requires '/' !in suffix && EndsWith(p, suffix)
    ensures EndsWith(Basename(p), suffix)
  {
    var k := TailStart(p);
    assert forall j :: |p| - |suffix| <= j < |p| ==> p[j] == suffix[j - (|p| - |suffix|)];
    assert k <= |p| - |suffix|;
    assert p[k..][|p[k..]| - |suffix|..] == p[|p| - |suffix|..];
  }

  /** Step 1 always produces a compressed name, still a `*.fastq*` name, and it
      decompresses back to the input's name when the input was not compressed */
  lemma CompressedCopyNameSpec(inputPath: string)
    requires IsFastqName(Basename(inputPath))
    ensures EndsWith(CompressedCopyName(inputPath), ".gz")
    ensures IsFastqName(CompressedCopyName(inputPath))
    ensures !EndsWith(inputPath, ".gz") ==> DropLast(CompressedCopyName(inputPath), 3) == Basename(inputPath)
  {
    var b := Basename(inputPath);
    if EndsWith(inputPath, ".gz") {
      BasenameKeepsSuffix(inputPath, ".gz");
    } else {
      ContainsPrefix(b, ".gz", ".fastq");
      assert (b + ".gz")[..|b|] == b;
    }
  }

  /** Step 2: `re.sub('_([0R])1', '_trimmed_{}<digit>', basename)` */
  function TrimmedName(basename: string, digit: char): string {
    SubMarker(basename, Trimmed(digit))
  }

  lemma TrimmedReplacementMate(g: char, q: string)
    requires g == '0' || g == 'R'
    ensures MateName(ReplacementText(Trimmed('1'), g) + q) == ReplacementText(Trimmed('2'), g) + MateName(q)
  {
    var t := ['_', g, '1'] + q;
    assert MarkerAt(t, 0) && t[1] == g && t[3..] == q;
    calc {
      MateName(ReplacementText(Trimmed('1'), g) + q);
    == { assert ReplacementText(Trimmed('1'), g) + q == "_trimmed" + t; }
      SubMarker("_trimmed" + t, Mate);
    == { SubMarkerConcat("_trimmed", t, Mate); }
      SubMarker("_trimmed", Mate) + SubMarker(t, Mate);
    == { assert forall i :: !MarkerAt("_trimmed", i); SubMarkerNoMatch("_trimmed", Mate); }
      "_trimmed" + SubMarker(t, Mate);
    == { SubMarkerMatchStep(t, Mate); }
      "_trimmed" + (['_', g, '2'] + MateName(q));
    == { assert "_trimmed" + ['_', g, '2'] == ReplacementText(Trimmed('2'), g); }
      ReplacementText(Trimmed('2'), g) + MateName(q);
    }
  }

  /** A trimmed name starts with a marker only where its input did */
  lemma TrimmedStart(s: string, d: char)
    requires !MarkerAt(s, 0)
    ensures !MarkerAt(TrimmedName(s, d), 0)
  {
    if |s| >= 1 {
      var t1 := TrimmedName(s[1..], d);
      assert TrimmedName(s, d) == [s[0]] + t1;
      if |s| >= 2 && !MarkerAt(s[1..], 0) {
        var t2 := TrimmedName(s[2..], d);
        assert s[1..][1..] == s[2..];
        assert t1 == [s[1]] + t2;
        if |s| >= 3 && !MarkerAt(s[2..], 0) {
          assert s[2..][1..] == s[3..];
          assert t2 == [s[2]] + TrimmedName(s[3..], d);
        }
      }
    }
  }

  /** Step 2 names its two outputs so that the reverse one is the mate of the forward one:
      step 3's resolver pairs them again */
  lemma {:induction false} TrimmedNamesArePaired(s: string)
    ensures MateName(TrimmedName(s, '1')) == TrimmedName(s, '2')
    decreases |s|
  {
    if s != [] {
      if MarkerAt(s, 0) {
        TrimmedNamesArePaired(s[3..]);
        TrimmedReplacementMate(s[1], TrimmedName(s[3..], '1'));
      } else {
        TrimmedNamesArePaired(s[1..]);
        TrimmedStart(s, '1');
        assert TrimmedName(s, '1') == [s[0]] + TrimmedName(s[1..], '1');
        assert TrimmedName(s, '1')[1..] == TrimmedName(s[1..], '1');
      }
    }
  }

  /** For a name with a marker, step 2's two output names differ */
  lemma {:induction false} TrimmedNamesDiffer(s: string, i: nat)
    requires MarkerAt(s, i)
    ensures TrimmedName(s, '1') != TrimmedName(s, '2')
    decreases i
  {
    if MarkerAt(s, 0) {
      var a, b := TrimmedName(s, '1'), TrimmedName(s, '2');
      assert a[10] == '1' && b[10] == '2';
    } else {
      assert MarkerAt(s[1..], i - 1);
      TrimmedNamesDiffer(s[1..], i - 1);
      SubMarkerStep(s, Trimmed('1'));
      SubMarkerStep(s, Trimmed('2'));
      assert TrimmedName(s, '1')[1..] == TrimmedName(s[1..], '1');
      assert TrimmedName(s, '2')[1..] == TrimmedName(s[1..], '2');
    }
  }

  /** Step 3: PEAR's output prefix, `re.sub('_([0R]1)', '_merged', name)[:-6]` */
  function MergedPrefix(basename: string): string {
    DropLast(SubMarker(basename, Merged), 6)
  }

  /** For an uncompressed read file `<stem>.fastq` the prefix is the stem with its marker replaced by `_merged` */
  lemma MergedPrefixOfFastq(stem: string)
    ensures MergedPrefix(stem + ".fastq") == SubMarker(stem, Merged)
  {
    SubMarkerConcat(stem, ".fastq", Merged);
    SubMarkerNoMatch(".fastq", Merged);
  }

  /** Step 4: `re.sub('\.fastq\.gz', '.ee{maxee}trunc{trunclen}.fastq', name)` */
  function FilteredName(basename: string, maxee: int, trunclen: int): string {
    ReplaceAll(basename, ".fastq.gz", FilterTag(maxee, trunclen) + ".fastq")
  }

  /** The text step 4 puts in front of `.fastq`: `.ee{maxee}trunc{trunclen}` */
  function FilterTag(maxee: int, trunclen: int): (m: string)
    ensures m != [] && m[0] == '.'
  {
    ".ee" + IntToString(maxee) + "trunc" + IntToString(trunclen)
  }

  /** Step 4 on `<stem>.fastq.gz` with no other `.fastq.gz` in the name: only that suffix is rewritten */
  lemma FilteredNameOfAssembled(stem: string, maxee: int, trunclen: int)
    requires forall i :: 0 <= i < |stem| ==> !OccursAt(stem + ".fastq.gz", ".fastq.gz", i)
    ensures FilteredName(stem + ".fastq.gz", maxee, trunclen) == stem + FilterTag(maxee, trunclen) + ".fastq"
  {
    var m := FilterTag(maxee, trunclen);
    ReplaceAllFinal(stem, ".fastq.gz", m + ".fastq");
    AppendAssoc(stem, m, ".fastq");
  }

  /** Step 4's output for a `*.assembled.fastq.gz` input, once `gzip_files` has added `.gz`,
      is a `*.assembled.*.fastq.gz` name: what steps 5 and 6 look for */
  lemma FilteredNameFeedsCombine(name: string, maxee: int, trunclen: int)
    requires IsAssembledName(name)
    requires forall i :: 0 <= i < |name| - 9 ==> !OccursAt(name, ".fastq.gz", i)
    ensures IsAssembledStarName(FilteredName(name, maxee, trunclen) + ".gz")
  {
    var stem := name[..|name| - 9];
    assert name == stem + ".fastq.gz";
    FilteredNameOfAssembled(stem, maxee, trunclen);
    var mid := FilterTag(maxee, trunclen);
    assert ".fastq" + ".gz" == ".fastq.gz";
    AppendAssoc(stem + mid, ".fastq", ".gz");
    assert EndsWith(stem, ".assembled") by {
      assert stem[|stem| - 10..] == name[|name| - 19..|name| - 9];
    }
    assert stem[0] == name[0];
    AssembledStarName(stem, mid);
  }

  /** `<stem>.assembled` followed by `.<anything>.fastq.gz` matches `*.assembled.*.fastq.gz` */
  lemma AssembledStarName(stem: string, mid: string)
    requires EndsWith(stem, ".assembled") && !Hidden(stem)
    requires mid != [] && mid[0] == '.'
    ensures IsAssembledStarName(stem + mid + ".fastq.gz")
  {
    var out := (stem + mid) + ".fastq.gz";
    assert out[..|out| - 9] == stem + mid;
    ContainsAtJoint(stem, ".assembled", mid);
    assert ".assembled" + [mid[0]] == ".assembled.";
    assert out[0] == stem[0];
  }

  /** Step 6: `re.sub('\.fastq\.gz$', '.derepmin{n}.fasta' / '.derepmin{n}.txt', name)` */
  function DerepFastaName(basename: string, minUniqueSize: int): string {
    ReplaceAtEnd(basename, ".fastq.gz", ".derepmin" + IntToString(minUniqueSize) + ".fasta")
  }

  function DerepUcName(basename: string, minUniqueSize: int): string {
    ReplaceAtEnd(basename, ".fastq.gz", ".derepmin" + IntToString(minUniqueSize) + ".txt")
  }

  /** Step 6's two outputs for one input differ, distinct inputs get distinct outputs, and
      the sequence file, once compressed, is a `*.fasta.gz` name: what step 7 looks for */
  lemma DerepNamesSpec(b: string, b': string, n: int)
    requires IsAssembledStarName(b) && IsAssembledStarName(b')
    ensures DerepFastaName(b, n) != DerepUcName(b, n)
    ensures DerepFastaName(b, n) == DerepFastaName(b', n) ==> b == b'
    ensures IsFastaGzName(DerepFastaName(b, n) + ".gz")
  {
    var stem := b[..|b| - 9];
    var f, u := ".derepmin" + IntToString(n) + ".fasta", ".derepmin" + IntToString(n) + ".txt";
    ReplaceAtEndSuffix(b, ".fastq.gz", f);
    ReplaceAtEndSuffix(b, ".fastq.gz", u);
    assert |stem + f| != |stem + u|;
    if DerepFastaName(b, n) == DerepFastaName(b', n) {
      ReplaceAtEndInjective(b, b', ".fastq.gz", f);
    }
    var out := stem + f + ".gz";
    assert out[|out| - 9..] == ".fasta.gz";
    assert stem != [] by { assert |b| > 9; }
    assert out[0] == b[0];
  }

  /** Step 7: `re.sub('\.fasta$', '.rad3.fasta' / '.rad3.txt', name)` */
  function ClusterOtusName(basename: string): string {
    ReplaceAtEnd(basename, ".fasta", ".rad3.fasta")
  }

  function ClusterUparseName(basename: string): string {
    ReplaceAtEnd(basename, ".fasta", ".rad3.txt")
  }

  /** Step 8: `re.sub('\.fasta$', '.uchime.txt' / '.uchime.fasta', name)` */
  function UchimeOutName(basename: string): string {
    ReplaceAtEnd(basename, ".fasta", ".uchime.txt")
  }

  function NotMatchedName(basename: string): string {
    ReplaceAtEnd(basename, ".fasta", ".uchime.fasta")
  }

  /** Step 7's input, once decompressed, is a `*.fasta` name; its two outputs differ and
      the OTU file is again a `*.fasta` name: what step 8 looks for */
  lemma ClusterNamesSpec(gz: string)
    requires IsFastaGzName(gz)
    ensures IsFastaName(DropLast(gz, 3))
    ensures ClusterOtusName(DropLast(gz, 3)) != ClusterUparseName(DropLast(gz, 3))
    ensures IsFastaName(ClusterOtusName(DropLast(gz, 3)))
    ensures EndsWith(ClusterOtusName(DropLast(gz, 3)), ".rad3.fasta")
  {
    var fasta := DropLast(gz, 3);
    var stem := gz[..|gz| - 9];
    assert fasta == stem + ".fasta";
    ReplaceAtEndSuffix(fasta, ".fasta", ".rad3.fasta");
    ReplaceAtEndSuffix(fasta, ".fasta", ".rad3.txt");
    assert fasta[..|fasta| - 6] == stem;
    var otus := stem + ".rad3.fasta";
    assert otus[|otus| - 6..] == ".fasta";
    assert otus[|otus| - 11..] == ".rad3.fasta";
    assert |stem| > 0 ==> fasta[0] == otus[0] == gz[0];
  }

  /** Step 8's two outputs for an OTU file `*.rad3.fasta` differ, and the chimera-free
      sequences are a `*rad3.uchime.fasta` name: what step 9 looks for */
  lemma ChimeraNamesSpec(otus: string)
    requires IsFastaName(otus) && EndsWith(otus, ".rad3.fasta")
    ensures UchimeOutName(otus) != NotMatchedName(otus)
    ensures IsOtuFastaName(NotMatchedName(otus))
  {
    var stem := otus[..|otus| - 6];
    ReplaceAtEndSuffix(otus, ".fasta", ".uchime.txt");
    ReplaceAtEndSuffix(otus, ".fasta", ".uchime.fasta");
    assert stem[|stem| - 5..] == ".rad3";
    var nm := stem + ".uchime.fasta";
    assert nm[|nm| - 17..] == "rad3.uchime.fasta";
    assert |stem| > 0 && nm[0] == otus[0];
  }

  /** Step 8's output names stay in the directory they are joined to */
  lemma ChimeraNamesPlain(b: string)
    requires '/' !in b && EndsWith(b, ".fasta")
    ensures '/' !in UchimeOutName(b) && '/' !in NotMatchedName(b)
  {
    ReplaceAtEndSuffix(b, ".fasta", ".uchime.txt");
    ReplaceAtEndSuffix(b, ".fasta", ".uchime.fasta");
    assert '/' !in b[..|b| - 6];
  }

  /** Step 9: `re.sub('\.fastq\.gz', '.fasta', name)` and
      `re.sub('\.assembled\.fastq\.gz$', '.uchime.otutab.txt' / '.uchime.otutab.json', name)` */
  function OtuFastaName(basename: string): string {
    ReplaceAll(basename, ".fastq.gz", ".fasta")
  }

  function OtuTableName(basename: string): string {
    ReplaceAtEnd(basename, ".assembled.fastq.gz", ".uchime.otutab.txt")
  }

  function OtuBiomName(basename: string): string {
    ReplaceAtEnd(basename, ".assembled.fastq.gz", ".uchime.otutab.json")
  }

  /** Step 9's two tables for one input differ, and distinct inputs get distinct tables */
  lemma OtuTableNamesSpec(b: string, b': string)
    requires IsAssembledName(b) && IsAssembledName(b')
    ensures OtuTableName(b) != OtuBiomName(b)
    ensures OtuTableName(b) == OtuTableName(b') ==> b == b'
  {
    var stem := b[..|b| - 19];
    ReplaceAtEndSuffix(b, ".assembled.fastq.gz", ".uchime.otutab.txt");
    ReplaceAtEndSuffix(b, ".assembled.fastq.gz", ".uchime.otutab.json");
    assert |stem + ".uchime.otutab.txt"| != |stem + ".uchime.otutab.json"|;
    if OtuTableName(b) == OtuTableName(b') {
      ReplaceAtEndInjective(b, b', ".assembled.fastq.gz", ".uchime.otutab.txt");
    }
  }

  // ---------------------------------------------------------------------------
  // gzip_files / ungzip_files naming

  /** `gzip_files` writes `fp + '.gz'` */
  function GzipPath(fp: string): string {
    fp + ".gz"
  }

  /** `ungzip_files` writes `join(target_dir, basename(fp)[:-3])` */
  function UngzippedPath(fp: string, targetDir: string): string {
    JoinPath(targetDir, DropLast(Basename(fp), 3))
  }

  /** A decompressed file's name has no '/' */
  lemma UngzippedNamePlain(fp: string)
    ensures '/' !in DropLast(Basename(fp), 3)
  {
  }

  /** The decompressed copy is the entry `basename(fp)[:-3]` of the target directory */
  lemma UngzippedPathSplits(fp: string, targetDir: string)
    requires CanonicalDir(targetDir)
    ensures Dirname(UngzippedPath(fp, targetDir)) == targetDir
    ensures Basename(UngzippedPath(fp, targetDir)) == DropLast(Basename(fp), 3)
    ensures '/' !in DropLast(Basename(fp), 3)
  {
    var n := DropLast(Basename(fp), 3);
    assert '/' !in n;
    DirnameOfJoin(targetDir, n);
  }

  /** Decompressing a compressed file next to where it came from gives back the original path */
  lemma {:induction false} UngzipUndoesGzip(fp: string)
    requires CanonicalPath(fp)
    ensures UngzippedPath(GzipPath(fp), Dirname(fp)) == fp
  {
    var b := Basename(fp);
    BasenameAppend(fp, ".gz");
    assert DropLast(b + ".gz", 3) == b;
  }
}
