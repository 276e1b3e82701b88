/**
  The nine stages of the pipeline, in the order `run` calls them, and the names
  of their methods, which name their output directories.
 */
module Steps {
  datatype Stage =
    | CopyAndCompress | RemovePrimers | MergeReads | FilterReads | CombineRuns
    | Dereplicate | Cluster | ChimeraDetection | OtuTable

  /** The order in which `run` calls the stages */
  function Stages(): (s: seq<Stage>)
    ensures |s| == 9
    ensures forall i, j :: 0 <= i < j < 9 ==> s[i] != s[j]
  {
    [CopyAndCompress, RemovePrimers, MergeReads, FilterReads, CombineRuns,
     Dereplicate, Cluster, ChimeraDetection, OtuTable]
  }

  function StageNumber(s: Stage): char {
    match s
    case CopyAndCompress => '1'
    case RemovePrimers => '2'
    case MergeReads => '3'
    case FilterReads => '4'
    case CombineRuns => '5'
    case Dereplicate => '6'
    case Cluster => '7'
    case ChimeraDetection => '8'
    case OtuTable => '9'
  }

  function StageTitle(s: Stage): (t: string)
    ensures t != [] && t[|t| - 1] != '/'
  {
    match s
    case CopyAndCompress => "copy_and_compress"
    case RemovePrimers => "remove_primers"
    case MergeReads => "merge_forward_reverse_reads_with_pear"
    case FilterReads => "qc_reads_with_vsearch"
    case CombineRuns => "combine_runs"
    case Dereplicate => "dereplicate_sort_remove_low_abundance_reads"
    case Cluster => "cluster_97_percent"
    case ChimeraDetection => "reference_based_chimera_detection"
    case OtuTable => "create_otu_table"
  }

  /** The name of the stage's method, which names its output directory */
  function StageName(s: Stage): string {
    "step_0" + [StageNumber(s)] + "_" + StageTitle(s)
  }

  lemma StageNameShape(s: Stage)
    ensures |StageName(s)| > 7
    ensures StageName(s)[..6] == "step_0" && StageName(s)[6] == StageNumber(s)
  {
  }

  /** Stage names are relative names that do not end in '/' */
  lemma StageNamePlain(s: Stage)
    ensures StageName(s)[0] != '/' && StageName(s)[|StageName(s)| - 1] != '/'
  {
    var n, t := StageName(s), StageTitle(s);
    assert n[|n| - 1] == t[|t| - 1];
  }

  /** Each stage has a directory of its own */
  lemma StageNamesDistinct(s: Stage, s': Stage)
    requires StageName(s) == StageName(s')
    ensures s == s'
  {
    StageNameShape(s);
    StageNameShape(s');
  }
}

/**
  The `Pipeline` class: nine stages, each writing into its own directory
  `<work_dir>/<stage method name>` and skipped when that directory already holds
  output. The external tools (cutadapt, PEAR, vsearch, usearch) are not run: a
  stage appends each command line it would run to `commands`, and an `Effect`,
  given as a parameter, says which files a command leaves in the stage's
  directory.
 */
module Pipeline {
  import opened Text
  import opened Paths
  import opened Naming
  import opened Errors
  import opened Files
  import Combine
  import opened Steps

  /** An argument vector handed to `run_cmd` */
  type Command = seq<string>

  /** The names a command leaves in the output directory of the stage that runs it */
  type Effect = Command -> set<string>

  // ---------------------------------------------------------------------------
  // Stages

  /** The merge stage's directory is the one step 9 looks for, and no other */
  lemma StageNameMergeDir(s: Stage)
    ensures Matches(MergeStageDir, StageName(s)) <==> s == MergeReads
  {
    StageNameShape(s);
    var n := StageName(s);
    assert StartsWith(n, "step_03") <==> n[6] == '3' by {
      assert n[..7] == n[..6] + [n[6]];
    }
  }

  /** Steps 8 and 9 count only the entries whose names do not start with '.' */
  predicate IgnoresHidden(s: Stage) {
    s == ChimeraDetection || s == OtuTable
  }

  function Visible(entries: set<string>): set<string> {
    set n | n in entries && !Hidden(n)
  }

  /** The checkpoint test at the head of every stage: the stage runs only when its
      directory looks empty */
  predicate NeedsRun(s: Stage, entries: set<string>) {
    if IgnoresHidden(s) then Visible(entries) == {} else entries == {}
  }

  /** A stage that left a file behind is skipped next time, except that steps 8 and 9
      run again when all they left are hidden files */
  lemma NeedsRunSpec(s: Stage, entries: set<string>)
    ensures !IgnoresHidden(s) ==> (NeedsRun(s, entries) <==> entries == {})
    ensures IgnoresHidden(s) ==> (NeedsRun(s, entries) <==> forall n :: n in entries ==> Hidden(n))
    ensures entries == {} ==> NeedsRun(s, entries)
  {
    if IgnoresHidden(s) && !(forall n :: n in entries ==> Hidden(n)) {
      var n :| n in entries && !Hidden(n);
      assert n in Visible(entries);
    }
  }

  // ---------------------------------------------------------------------------
  // Configuration

  /** The constructor's arguments */
  datatype Config = Config(
    workDir: string,
    coreCount: int,
    cutadaptMinLength: int,
    forwardPrimer: string,
    reversePrimer: string,
    pearMinOverlap: int,
    pearMaxAssemblyLength: int,
    pearMinAssemblyLength: int,
    vsearchFilterMaxee: int,
    vsearchFilterTrunclen: int,
    vsearchDerepMinuniquesize: int,
    uchimeRefDbFp: string)

  /** The tool paths, read from the environment when the pipeline is built */
  datatype Executables = Executables(cutadapt: string, pear: string, usearch: string, vsearch: string)

  /** `os.environ.get(key, default=default)` */
  function EnvGet(env: map<string, string>, key: string, default: string): string {
    if key in env then env[key] else default
  }

  /** Each tool is the value of its environment variable when that is set, and the
      tool's bare name (found on the search path) otherwise */
  function ExecutablesFrom(env: map<string, string>): (x: Executables)
    ensures "CUTADAPT" in env ==> x.cutadapt == env["CUTADAPT"]
    ensures "PEAR" in env ==> x.pear == env["PEAR"]
    ensures "USEARCH" in env ==> x.usearch == env["USEARCH"]
    ensures "VSEARCH" in env ==> x.vsearch == env["VSEARCH"]
    ensures "CUTADAPT" !in env ==> x.cutadapt == "cutadapt"
    ensures "PEAR" !in env ==> x.pear == "pear"
    ensures "USEARCH" !in env ==> x.usearch == "usearch"
    ensures "VSEARCH" !in env ==> x.vsearch == "vsearch"
  {
    Executables(
      EnvGet(env, "CUTADAPT", "cutadapt"),
      EnvGet(env, "PEAR", "pear"),
      EnvGet(env, "USEARCH", "usearch"),
      EnvGet(env, "VSEARCH", "vsearch"))
  }

  // ---------------------------------------------------------------------------
  // Command lines, stage by stage

  /** Step 2: cutadapt on one forward-read file and its mate */
  function CutadaptCommand(c: Config, x: Executables, forwardFp: string, out: string): Command {
    var b := Basename(forwardFp);
    [x.cutadapt,
     "-a", c.forwardPrimer,
     "-A", c.reversePrimer,
     "-o", JoinPath(out, TrimmedName(b, '1')),
     "-p", JoinPath(out, TrimmedName(b, '2')),
     "-m", IntToString(c.cutadaptMinLength),
     forwardFp,
     MatePath(forwardFp)]
  }

  /** cutadapt reads a forward file and its mate, and writes a trimmed pair into the
      stage's directory that again names a forward file and its mate */
  lemma CutadaptCommandPairs(c: Config, x: Executables, forwardFp: string, out: string)
    requires CanonicalDir(out)
    ensures var cmd := CutadaptCommand(c, x, forwardFp, out);
      && |cmd| == 13
      && Dirname(cmd[12]) == Dirname(cmd[11])
      && Basename(cmd[12]) == MateName(Basename(cmd[11]))
      && Dirname(cmd[6]) == out && Dirname(cmd[8]) == out
      && Basename(cmd[8]) == MateName(Basename(cmd[6]))
  {
    var cmd := CutadaptCommand(c, x, forwardFp, out);
    var b := Basename(forwardFp);
    var t1, t2 := TrimmedName(b, '1'), TrimmedName(b, '2');
    assert cmd[6] == JoinPath(out, t1) && cmd[8] == JoinPath(out, t2);
    assert cmd[11] == forwardFp && cmd[12] == MatePath(forwardFp);
    MatePathSameDirectory(forwardFp);
    assert '/' !in t1 && '/' !in t2 by {
      SubMarkerAvoidsSlash(b, Trimmed('1'));
      SubMarkerAvoidsSlash(b, Trimmed('2'));
    }
    DirnameOfJoin(out, t1);
    DirnameOfJoin(out, t2);
    TrimmedNamesArePaired(b);
  }

  /** Step 3: PEAR on a decompressed pair, writing `<prefix>.*.fastq` */
  function PearCommand(c: Config, x: Executables, forwardFp: string, reverseFp: string, prefix: string): Command {
    [x.pear,
     "-f", forwardFp,
     "-r", reverseFp,
     "-o", prefix,
     "--min-overlap", IntToString(c.pearMinOverlap),
     "--max-assembly-length", IntToString(c.pearMaxAssemblyLength),
     "--min-assembly-length", IntToString(c.pearMinAssemblyLength),
     "-j", IntToString(c.coreCount)]
  }

  /** The prefix step 3 hands PEAR for the compressed forward file `cf`: built from the
      name of the decompressed forward file, which is `cf`'s name without `.gz` */
  function PearPrefix(cf: string, out: string): string {
    JoinPath(out, MergedPrefix(DropLast(Basename(cf), 3)))
  }

  /** Step 3's PEAR call for the compressed forward file `cf`, once the pair is
      decompressed into `out` */
  function PearCommandFor(c: Config, x: Executables, cf: string, out: string): Command {
    PearCommand(c, x, UngzippedPath(cf, out), UngzippedPath(MatePath(cf), out), PearPrefix(cf, out))
  }

  /** Step 4: vsearch quality filtering of one assembled file */
  function FilterCommand(c: Config, x: Executables, fp: string, out: string): Command {
    [x.vsearch,
     "-fastq_filter", fp,
     "-fastqout", JoinPath(out, FilteredName(Basename(fp), c.vsearchFilterMaxee, c.vsearchFilterTrunclen)),
     "-fastq_maxee", IntToString(c.vsearchFilterMaxee),
     "-fastq_trunclen", IntToString(c.vsearchFilterTrunclen),
     "-threads", IntToString(c.coreCount)]
  }

  /** Step 6: vsearch dereplication of one filtered file */
  function DerepCommand(c: Config, x: Executables, fp: string, out: string): Command {
    var b := Basename(fp);
    [x.vsearch,
     "-derep_fulllength", fp,
     "-output", JoinPath(out, DerepFastaName(b, c.vsearchDerepMinuniquesize)),
     "-uc", JoinPath(out, DerepUcName(b, c.vsearchDerepMinuniquesize)),
     "-sizeout",
     "-minuniquesize", IntToString(c.vsearchDerepMinuniquesize),
     "-threads", IntToString(c.coreCount)]
  }

  /** Step 7: usearch OTU clustering of one decompressed file */
  function ClusterCommand(x: Executables, fp: string, out: string): Command {
    var b := Basename(fp);
    [x.usearch,
     "-cluster_otus", fp,
     "-otus", JoinPath(out, ClusterOtusName(b)),
     "-relabel", "OTU_",
     "-uparseout", JoinPath(out, ClusterUparseName(b))]
  }

  /** Step 8: vsearch reference-based chimera detection on one OTU file */
  function UchimeCommand(c: Config, x: Executables, fp: string, out: string): Command {
    var b := Basename(fp);
    [x.vsearch,
     "-uchime_ref", fp,
     "-db", c.uchimeRefDbFp,
     "-uchimeout", JoinPath(out, UchimeOutName(b)),
     "-mode", "balanced",
     "-strand", "plus",
     "-notmatched", JoinPath(out, NotMatchedName(b)),
     "-threads", IntToString(c.coreCount)]
  }

  /** Step 9: converting one merged file to FASTA */
  function FastaCommand(x: Executables, fp: string, out: string): Command {
    [x.vsearch,
     "--fastq_filter", fp,
     "--fastaout", JoinPath(out, OtuFastaName(Basename(fp)))]
  }

  /** Step 9: mapping that FASTA file onto the OTUs */
  function OtuTableCommand(x: Executables, fp: string, otusFp: string, out: string): Command {
    var b := Basename(fp);
    [x.vsearch,
     "--usearch_global", JoinPath(out, OtuFastaName(b)),
     "--db", otusFp,
     "--id", "0.97",
     "--biomout", JoinPath(out, OtuBiomName(b)),
     "--otutabout", JoinPath(out, OtuTableName(b))]
  }

  /** Step 9 maps onto the OTUs exactly the FASTA file it has just written */
  lemma OtuTableCommandReadsFasta(x: Executables, fp: string, otusFp: string, out: string)
    ensures OtuTableCommand(x, fp, otusFp, out)[2] == FastaCommand(x, fp, out)[4]
    ensures OtuTableCommand(x, fp, otusFp, out)[8] != OtuTableCommand(x, fp, otusFp, out)[10]
      || !IsAssembledName(Basename(fp))
  {
    var b := Basename(fp);
    if IsAssembledName(b) {
      OtuTableNamesSpec(b, b);
      var j, t := OtuBiomName(b), OtuTableName(b);
      assert JoinPath(out, j) != JoinPath(out, t) by {
        if out == [] || out[|out| - 1] == '/' {
          assert |out + j| != |out + t| || j == t;
        }
      }
    }
  }

  /** Step 9's two commands per input, in order */
  function OtuTableCommands(x: Executables, fps: seq<string>, otusFp: string, out: string): (cmds: seq<Command>)
    ensures |cmds| == 2 * |fps|
    ensures forall i :: 0 <= i < |fps| ==>
      cmds[2 * i] == FastaCommand(x, fps[i], out) && cmds[2 * i + 1] == OtuTableCommand(x, fps[i], otusFp, out)
    decreases |fps|
  {
    if fps == [] then []
    else
      var init := OtuTableCommands(x, fps[..|fps| - 1], otusFp, out);
      var fp := fps[|fps| - 1];
      init + [FastaCommand(x, fp, out), OtuTableCommand(x, fp, otusFp, out)]
  }

  /** All the files a sequence of commands leaves behind */
  function EffectsOf(effect: Effect, cmds: seq<Command>): (names: set<string>)
    ensures forall i :: 0 <= i < |cmds| ==> effect(cmds[i]) <= names
    ensures forall n :: n in names ==> exists i :: 0 <= i < |cmds| && n in effect(cmds[i])
    decreases |cmds|
  {
    if cmds == [] then {}
    else
      var init := cmds[..|cmds| - 1];
      assert forall i :: 0 <= i < |init| ==> init[i] == cmds[i];
      EffectsOf(effect, init) + effect(cmds[|cmds| - 1])
  }

  // ---------------------------------------------------------------------------
  // Module-level helpers of the pipeline

  /** `create_output_dir(name, parent_dir, input_dir)`: exactly one of the two directories
      must be given; the new directory sits in `parentDir`, or next to `inputDir`, and is
      created unless something of that name exists */
  method CreateOutputDir(fs: FileSystem, name: string, parentDir: Option<string>, inputDir: Option<string>)
    returns (r: Result<string>)
    modifies fs
    ensures r.Success? <==> parentDir.Some? != inputDir.Some?
    ensures r.Failure? ==> r.error == BadDirArguments && fs.dirs == old(fs.dirs)
    ensures r.Success? ==> r.value == JoinPath(if parentDir.Some? then parentDir.value else Dirname(inputDir.value), name)
    ensures r.Success? && old(fs.PathExists(r.value)) ==> fs.dirs == old(fs.dirs)
    ensures r.Success? && !old(fs.PathExists(r.value)) ==> fs.dirs == WithDir(old(fs.dirs), r.value)
  {
    var parent: string;
    if parentDir.Some? && inputDir.None? {
      parent := parentDir.value;
    } else if inputDir.Some? && parentDir.None? {
      parent := Dirname(inputDir.value);
    } else {
      return Failure(BadDirArguments);
    }
    var outputDir := JoinPath(parent, name);
    if !fs.PathExists(outputDir) {
      fs.MakeDir(outputDir);
    }
    r := Success(outputDir);
  }

  /** `get_forward_fastq_files(input_dir)`: the `*_[R0]1*.fastq*` files, or an error naming the glob */
  method GetForwardFastqFiles(fs: FileSystem, inputDir: string) returns (r: Result<seq<string>>)
    ensures r.Failure? <==> fs.Found(inputDir, ForwardReads) == {}
    ensures r.Failure? ==> r.error == NoForwardReads(JoinPath(inputDir, PatternText(ForwardReads)))
    ensures r.Success? ==> Elements(r.value) == fs.Found(inputDir, ForwardReads)
  {
    var fps := fs.GlobList(inputDir, ForwardReads);
    if fps == [] {
      return Failure(NoForwardReads(JoinPath(inputDir, PatternText(ForwardReads))));
    }
    assert fps[0] in Elements(fps);
    r := Success(fps);
  }

  // ---------------------------------------------------------------------------
  // What each stage leaves in its directory, as functions of what it finds

  /** Step 1: the names its copies get */
  function CopiedNames(fps: seq<string>): set<string>
    decreases |fps|
  {
    if fps == [] then {} else CopiedNames(fps[..|fps| - 1]) + {CompressedCopyName(fps[|fps| - 1])}
  }

  lemma CopiedNamesAdd(fps: seq<string>, i: nat)
    requires i < |fps|
    ensures CopiedNames(fps[..i + 1]) == CopiedNames(fps[..i]) + {CompressedCopyName(fps[i])}
  {
    assert fps[..i + 1][..i] == fps[..i];
  }

  /** Step 2's loop: the `i`-th command reads the `i`-th forward file and its mate, and
      writes a trimmed forward file and its mate into `out` */
  function CutadaptCommands(c: Config, x: Executables, fps: seq<string>, out: string): (cmds: seq<Command>)
    ensures |cmds| == |fps|
    ensures forall i :: 0 <= i < |fps| ==> |cmds[i]| == 13 && cmds[i][11] == fps[i] && cmds[i][12] == MatePath(fps[i])
    ensures CanonicalDir(out) ==> forall i :: 0 <= i < |fps| ==>
      Dirname(cmds[i][6]) == out && Dirname(cmds[i][8]) == out && Basename(cmds[i][8]) == MateName(Basename(cmds[i][6]))
  {
    var cmds := seq(|fps|, i requires 0 <= i < |fps| => CutadaptCommand(c, x, fps[i], out));
    assert forall i :: 0 <= i < |fps| ==> CutadaptCommandSpec(fps[i], out, cmds[i]) by {
      forall i | 0 <= i < |fps| {
        CutadaptCommandProps(c, x, fps[i], out);
      }
    }
    cmds
  }

  /** What step 2's command `cmd` for `fp` promises: it is thirteen words long, reads `fp`
      and its mate, and writes a trimmed pair into `out` whose reverse file is the mate of
      its forward file */
  predicate CutadaptCommandSpec(fp: string, out: string, cmd: Command) {
    && |cmd| == 13 && cmd[11] == fp && cmd[12] == MatePath(fp)
    && (CanonicalDir(out) ==>
          Dirname(cmd[6]) == out && Dirname(cmd[8]) == out && Basename(cmd[8]) == MateName(Basename(cmd[6])))
  }

  lemma CutadaptCommandProps(c: Config, x: Executables, fp: string, out: string)
    ensures CutadaptCommandSpec(fp, out, CutadaptCommand(c, x, fp, out))
  {
    var cmd := CutadaptCommand(c, x, fp, out);
    assert |cmd| == 13 && cmd[11] == fp && cmd[12] == MatePath(fp);
    if CanonicalDir(out) {
      CutadaptCommandPairs(c, x, fp, out);
    }
  }

  /** A prefix one element longer */
  lemma TakeSnoc<T>(s: seq<T>, i: nat)
    requires i < |s|
    ensures s[..i + 1] == s[..i] + [s[i]]
  {
  }

  /** A log that was extended, and then grew again, still starts with what it held */
  lemma LogGrows(log: seq<Command>, more: seq<Command>, later: seq<Command>)
    requires log + more <= later
    ensures log <= later
  {
    assert later[..|log|] == (log + more)[..|log|];
  }

  lemma PrefixTrans(a: seq<Command>, b: seq<Command>, c: seq<Command>)
    requires a <= b && b <= c
    ensures a <= c
  {
    assert c[..|a|] == b[..|a|];
  }

  /** `[f(fp) for fp in fps]`, built by appending one command per file */
  function Each(f: string -> Command, fps: seq<string>): (cmds: seq<Command>)
    ensures |cmds| == |fps|
    decreases |fps|
  {
    if fps == [] then [] else Each(f, fps[..|fps| - 1]) + [f(fps[|fps| - 1])]
  }

  lemma {:induction false} EachAt(f: string -> Command, fps: seq<string>, i: nat)
    requires i < |fps|
    ensures Each(f, fps)[i] == f(fps[i])
    decreases |fps|
  {
    var init := fps[..|fps| - 1];
    if i < |init| {
      EachAt(f, init, i);
      assert init[i] == fps[i];
    }
  }

  /** One more file: one more command at the end */
  lemma EachStep(f: string -> Command, fps: seq<string>, i: nat, log: seq<Command>)
    requires i < |fps|
    ensures log + Each(f, fps[..i + 1]) == (log + Each(f, fps[..i])) + [f(fps[i])]
  {
    assert fps[..i + 1][..i] == fps[..i];
  }

  /** Step 3's PEAR calls, one per compressed forward file, in order */
  function PearCommands(c: Config, x: Executables, cfs: seq<string>, out: string): (cmds: seq<Command>)
    ensures |cmds| == |cfs|
  {
    Each(cf => PearCommandFor(c, x, cf, out), cfs)
  }

  lemma PearCommandsAt(c: Config, x: Executables, cfs: seq<string>, out: string, i: nat)
    requires i < |cfs|
    ensures PearCommands(c, x, cfs, out)[i] == PearCommandFor(c, x, cfs[i], out)
  {
    EachAt(cf => PearCommandFor(c, x, cf, out), cfs, i);
  }

  /** Step 3's PEAR call for one compressed forward file `cf`: the pair is decompressed
      into `out`, PEAR runs, and the decompressed pair is removed */
  function PearStep(c: Config, x: Executables, effect: Effect, entries: set<string>, cf: string, out: string): set<string> {
    var f, r := DropLast(Basename(cf), 3), DropLast(Basename(MatePath(cf)), 3);
    ((entries + {f, r} + effect(PearCommandFor(c, x, cf, out))) - {f}) - {r}
  }

  /** Step 3 for one compressed forward file `cf`: PEAR's call, then its `<prefix>.*.fastq`
      outputs are compressed */
  function MergeStep(c: Config, x: Executables, effect: Effect, entries: set<string>, cf: string, out: string): set<string> {
    GzipMatching(PearStep(c, x, effect, entries, cf, out), MergedOutputs(MergedPrefix(DropLast(Basename(cf), 3))))
  }

  function MergeFold(c: Config, x: Executables, effect: Effect, entries: set<string>, cfs: seq<string>, out: string): set<string>
    decreases |cfs|
  {
    if cfs == [] then entries
    else MergeStep(c, x, effect, MergeFold(c, x, effect, entries, cfs[..|cfs| - 1], out), cfs[|cfs| - 1], out)
  }

  function FilterCommands(c: Config, x: Executables, fps: seq<string>, out: string): (cmds: seq<Command>)
    ensures |cmds| == |fps|
    ensures forall i :: 0 <= i < |fps| ==> cmds[i] == FilterCommand(c, x, fps[i], out)
  {
    seq(|fps|, i requires 0 <= i < |fps| => FilterCommand(c, x, fps[i], out))
  }

  function DerepCommands(c: Config, x: Executables, fps: seq<string>, out: string): (cmds: seq<Command>)
    ensures |cmds| == |fps|
    ensures forall i :: 0 <= i < |fps| ==> cmds[i] == DerepCommand(c, x, fps[i], out)
  {
    seq(|fps|, i requires 0 <= i < |fps| => DerepCommand(c, x, fps[i], out))
  }

  /** Step 7's usearch call for the compressed file `cf`, once it is decompressed into `out` */
  function ClusterCommandFor(x: Executables, cf: string, out: string): Command {
    ClusterCommand(x, UngzippedPath(cf, out), out)
  }

  /** Step 7's usearch calls, one per compressed file, in order */
  function ClusterCommands(x: Executables, cfs: seq<string>, out: string): (cmds: seq<Command>)
    ensures |cmds| == |cfs|
  {
    Each(cf => ClusterCommandFor(x, cf, out), cfs)
  }

  lemma {:induction false} ClusterCommandsAt(x: Executables, cfs: seq<string>, out: string, i: nat)
    requires i < |cfs|
    ensures ClusterCommands(x, cfs, out)[i] == ClusterCommandFor(x, cfs[i], out)
  {
    EachAt(cf => ClusterCommandFor(x, cf, out), cfs, i);
  }

  /** Step 7 for one compressed file: decompress into `out`, cluster, remove the decompressed file */
  function ClusterStep(x: Executables, effect: Effect, entries: set<string>, cf: string, out: string): set<string> {
    var f := DropLast(Basename(cf), 3);
    ((entries + {f}) + effect(ClusterCommandFor(x, cf, out))) - {f}
  }

  function ClusterFold(x: Executables, effect: Effect, entries: set<string>, cfs: seq<string>, out: string): set<string>
    decreases |cfs|
  {
    if cfs == [] then entries
    else ClusterStep(x, effect, ClusterFold(x, effect, entries, cfs[..|cfs| - 1], out), cfs[|cfs| - 1], out)
  }

  /** One more file of step 3's loop: one more PEAR call in the log */
  lemma {:induction false} PearCommandsStep(c: Config, x: Executables, cfs: seq<string>, i: nat, out: string, log: seq<Command>)
    requires i < |cfs|
    ensures log + PearCommands(c, x, cfs[..i + 1], out) == (log + PearCommands(c, x, cfs[..i], out)) + [PearCommandFor(c, x, cfs[i], out)]
  {
    EachStep(cf => PearCommandFor(c, x, cf, out), cfs, i, log);
  }

  /** One more file of step 3's loop: one more `MergeStep` on the directory */
  lemma {:induction false} MergeFoldStep(c: Config, x: Executables, effect: Effect, entries: set<string>, cfs: seq<string>, i: nat, out: string)
    requires i < |cfs|
    ensures MergeFold(c, x, effect, entries, cfs[..i + 1], out) == MergeStep(c, x, effect, MergeFold(c, x, effect, entries, cfs[..i], out), cfs[i], out)
  {
    assert cfs[..i + 1][..i] == cfs[..i];
  }

  /** One more file of step 7's loop: one more usearch call in the log */
  lemma {:induction false} ClusterCommandsStep(x: Executables, cfs: seq<string>, i: nat, out: string, log: seq<Command>)
    requires i < |cfs|
    ensures log + ClusterCommands(x, cfs[..i + 1], out) == (log + ClusterCommands(x, cfs[..i], out)) + [ClusterCommandFor(x, cfs[i], out)]
  {
    EachStep(cf => ClusterCommandFor(x, cf, out), cfs, i, log);
  }

  /** One more file of step 7's loop: one more `ClusterStep` on the directory */
  lemma {:induction false} ClusterFoldStep(x: Executables, effect: Effect, entries: set<string>, cfs: seq<string>, i: nat, out: string)
    requires i < |cfs|
    ensures ClusterFold(x, effect, entries, cfs[..i + 1], out) == ClusterStep(x, effect, ClusterFold(x, effect, entries, cfs[..i], out), cfs[i], out)
  {
    assert cfs[..i + 1][..i] == cfs[..i];
  }

  /** Step 8's loop: the `i`-th command reads the `i`-th OTU file; for a `*.rad3.fasta`
      file its two outputs differ and the chimera-free one is what step 9 looks for */
  function UchimeCommands(c: Config, x: Executables, fps: seq<string>, out: string): (cmds: seq<Command>)
    ensures |cmds| == |fps|
    ensures forall i :: 0 <= i < |fps| ==> |cmds[i]| == 15 && cmds[i][2] == fps[i]
    ensures forall i :: 0 <= i < |fps| && IsRad3Fasta(fps[i]) ==>
      cmds[i][6] != cmds[i][12] && IsOtuFastaName(Basename(cmds[i][12]))
  {
    var cmds := seq(|fps|, i requires 0 <= i < |fps| => UchimeCommand(c, x, fps[i], out));
    assert forall i :: 0 <= i < |fps| ==> UchimeCommandSpec(c, x, fps[i], out, cmds[i]) by {
      forall i | 0 <= i < |fps| {
        UchimeCommandProps(c, x, fps[i], out);
      }
    }
    cmds
  }

  /** An OTU file as step 7 names it: `*.rad3.fasta` */
  predicate IsRad3Fasta(fp: string) {
    IsFastaName(Basename(fp)) && EndsWith(Basename(fp), ".rad3.fasta")
  }

  /** What step 8's command `cmd` for `fp` promises: it is fifteen words long and reads
      `fp`, and for an OTU file its two outputs differ and the chimera-free one is a
      `*rad3.uchime.fasta` name */
  predicate UchimeCommandSpec(c: Config, x: Executables, fp: string, out: string, cmd: Command) {
    && |cmd| == 15 && cmd[2] == fp
    && (IsRad3Fasta(fp) ==> cmd[6] != cmd[12] && IsOtuFastaName(Basename(cmd[12])))
  }

  lemma UchimeCommandProps(c: Config, x: Executables, fp: string, out: string)
    ensures UchimeCommandSpec(c, x, fp, out, UchimeCommand(c, x, fp, out))
  {
    var cmd := UchimeCommand(c, x, fp, out);
    var b := Basename(fp);
    var u, n := UchimeOutName(b), NotMatchedName(b);
    assert |cmd| == 15 && cmd[2] == fp;
    assert cmd[6] == JoinPath(out, u) && cmd[12] == JoinPath(out, n);
    if IsRad3Fasta(fp) {
      ChimeraNamesSpec(b);
      ChimeraNamesPlain(b);
      BasenameOfJoin(out, u);
      BasenameOfJoin(out, n);
    }
  }



  /** PEAR's outputs for the decompressed forward file `f` are globbed in `out` itself, with
      the pattern the program spells as the prefix path followed by `.*.fastq` */
  lemma {:induction false} MergedOutputsGlob(f: string, out: string)
    requires CanonicalDir(out) && '/' !in f
    ensures GlobDir(out, MergedOutputs(MergedPrefix(f))) == out
    ensures JoinPath(out, MergedPrefix(f)) + ".*.fastq" == JoinPath(out, PatternText(MergedOutputs(MergedPrefix(f))))
  {
    var prefix := MergedPrefix(f);
    assert PatternText(MergedOutputs(prefix)) == prefix + ".*.fastq";
    assert '/' !in prefix by {
      SubMarkerAvoidsSlash(f, Merged);
    }
    GlobDirOfCanonical(out, MergedOutputs(prefix));
    JoinPathAppend(out, prefix, ".*.fastq");
  }

  // ---------------------------------------------------------------------------
  // The pipeline object

  class Pipeline {
    const config: Config
    const tools: Executables
    const fs: FileSystem
    /** The command lines run so far, in order */
    var commands: seq<Command>
    /** The stages called so far, each with the input directory it was handed */
    ghost var calls: seq<(Stage, string)>

    constructor (config: Config, env: map<string, string>, fs: FileSystem)
      ensures this.config == config && tools == ExecutablesFrom(env) && this.fs == fs
      ensures commands == [] && calls == []
    {
      this.config := config;
      tools := ExecutablesFrom(env);
      this.fs := fs;
      commands := [];
      calls := [];
    }

    /** The directory a stage writes into */
    function StageDir(s: Stage): (d: string)
      ensures CanonicalDir(d)
    {
      StageNameShape(s);
      StageNamePlain(s);
      JoinNameIsCanonicalDir(config.workDir, StageName(s));
      JoinPath(config.workDir, StageName(s))
    }

    /** Stage directories are in split form and differ from stage to stage */
    lemma {:induction false} StageDirSpec(s: Stage, s': Stage)
      ensures CanonicalDir(StageDir(s))
      ensures StageDir(s) == StageDir(s') ==> s == s'
    {
      StageNamePlain(s);
      StageNamePlain(s');
      JoinNameIsCanonicalDir(config.workDir, StageName(s));
      if StageDir(s) == StageDir(s') {
        JoinPathCancel(config.workDir, StageName(s), StageName(s'));
        StageNamesDistinct(s, s');
      }
    }

    /** `run_cmd(cmd)`: the command is recorded and leaves its files in `out` */
    method RunCmd(cmd: Command, out: string, effect: Effect)
      requires out in fs.dirs
      modifies this`commands, fs
      ensures commands == old(commands) + [cmd]
      ensures fs.dirs == old(fs.dirs)[out := old(fs.Entries(out)) + effect(cmd)]
    {
      commands := commands + [cmd];
      fs.WriteAll(out, effect(cmd));
    }

    /** A stage's loop that runs one command per input and does nothing else */
    method RunEach(cmds: seq<Command>, out: string, effect: Effect)
      requires out in fs.dirs
      modifies this`commands, fs
      ensures commands == old(commands) + cmds
      ensures fs.dirs == old(fs.dirs)[out := old(fs.Entries(out)) + EffectsOf(effect, cmds)]
    {
      assert cmds[..0] == [];
      assert old(fs.Entries(out)) + EffectsOf(effect, cmds[..0]) == old(fs.Entries(out));
      for i := 0 to |cmds|
        invariant out in fs.dirs
        invariant commands == old(commands) + cmds[..i]
        invariant fs.dirs == old(fs.dirs)[out := old(fs.Entries(out)) + EffectsOf(effect, cmds[..i])]
      {
        assert cmds[..i + 1][..i] == cmds[..i];
        assert EffectsOf(effect, cmds[..i + 1]) == EffectsOf(effect, cmds[..i]) + effect(cmds[i]);
        ghost var before := fs.Entries(out);
        assert before == old(fs.Entries(out)) + EffectsOf(effect, cmds[..i]);
        RunCmd(cmds[i], out, effect);
        assert before + effect(cmds[i]) == old(fs.Entries(out)) + EffectsOf(effect, cmds[..i + 1]);
        assert fs.dirs == old(fs.dirs)[out := old(fs.Entries(out)) + EffectsOf(effect, cmds[..i + 1])];
      }
      assert cmds[..|cmds|] == cmds;
    }

    /** `initialize_step`: the stage's directory under the work directory, created when
        nothing of that name exists */
    method InitializeStep(s: Stage) returns (out: string)
      modifies fs
      ensures out == StageDir(s)
      ensures old(fs.PathExists(out)) ==> fs.dirs == old(fs.dirs)
      ensures !old(fs.PathExists(out)) ==> fs.dirs == WithDir(old(fs.dirs), out)
    {
      var r := CreateOutputDir(fs, StageName(s), Some(config.workDir), None);
      out := r.value;
    }

    /** `complete_step`: a stage fails unless its directory lists something, hidden
        files included */
    function CompleteStep(out: string): (r: Result<string>)
      reads fs
      ensures r.Success? <==> out in fs.dirs && fs.Entries(out) != {}
      ensures r.Success? ==> r.value == out
      ensures r.Failure? && out in fs.dirs ==> r.error == NoOutputFiles(out)
      ensures out !in fs.dirs ==> r == Failure(if fs.Exists(out) then NotADirectory(out) else NotFound(out))
    {
      match fs.ListDir(out)
      case Failure(e) => Failure(e)
      case Success(names) => if names == {} then Failure(NoOutputFiles(out)) else Success(out)
    }

    // -------------------------------------------------------------------------
    // What the stages do when their directory `out` is empty

    /** Step 1: every `*.fastq*` file of the input directory, in sorted order, is copied
        into `out` compressed (kept as is when already ending in `.gz`) */
    method CopyAndCompressFiles(inputDir: string, out: string) returns (r: Result<seq<string>>)
      requires out in fs.dirs
      modifies fs
      ensures r.Failure? <==> old(fs.Found(inputDir, AnyFastq)) == {}
      ensures r.Failure? ==> r.error == NoFastqFiles(inputDir) && fs.dirs == old(fs.dirs)
      ensures r.Success? ==> StrictlySorted(r.value) && Elements(r.value) == old(fs.Found(inputDir, AnyFastq))
      ensures r.Success? ==> fs.dirs == old(fs.dirs)[out := old(fs.Entries(out)) + CopiedNames(r.value)]
    {
      var fps := fs.SortedGlob(inputDir, AnyFastq);
      if fps == [] {
        return Failure(NoFastqFiles(inputDir));
      }
      assert fps[0] in Elements(fps);
      CopyEach(fps, out);
      r := Success(fps);
    }

    /** Step 1's loop: each file of `fps` is copied into `out` under its compressed name */
    method CopyEach(fps: seq<string>, out: string)
      requires out in fs.dirs
      modifies fs
      ensures fs.dirs == old(fs.dirs)[out := old(fs.Entries(out)) + CopiedNames(fps)]
    {
      ghost var d0 := fs.dirs;
      assert fps[..0] == [];
      assert d0[out] + CopiedNames(fps[..0]) == d0[out];
      assert d0[out := d0[out]] == d0;
      for i := 0 to |fps|
        invariant fs.dirs == d0[out := d0[out] + CopiedNames(fps[..i])]
      {
        var name := CompressedCopyName(fps[i]);
        ghost var grown := d0[out] + CopiedNames(fps[..i]);
        assert fs.Entries(out) == grown;
        fs.Write(out, name);
        CopiedNamesAdd(fps, i);
        assert grown + {name} == d0[out] + CopiedNames(fps[..i + 1]);
        UpdateTwice(d0, out, grown, grown + {name});
      }
      assert fps[..|fps|] == fps;
    }

    /** Step 2: cutadapt on every forward-read file of the input directory */
    method RemovePrimersWithCutadapt(inputDir: string, out: string, effect: Effect) returns (r: Result<seq<string>>)
      requires out in fs.dirs
      modifies this`commands, fs
      ensures r.Failure? <==> old(fs.Found(inputDir, ForwardReads)) == {}
      ensures r.Failure? ==> r.error == NoForwardReads(JoinPath(inputDir, PatternText(ForwardReads)))
      ensures r.Failure? ==> fs.dirs == old(fs.dirs) && commands == old(commands)
      ensures r.Success? ==> Elements(r.value) == old(fs.Found(inputDir, ForwardReads))
      ensures r.Success? ==> commands == old(commands) + CutadaptCommands(config, tools, r.value, out)
      ensures r.Success? ==> fs.dirs == old(fs.dirs)[out := old(fs.Entries(out)) + EffectsOf(effect, CutadaptCommands(config, tools, r.value, out))]
    {
      r := GetForwardFastqFiles(fs, inputDir);
      if r.Success? {
        RunEach(CutadaptCommands(config, tools, r.value, out), out, effect);
      }
    }

    /** PEAR on the decompressed pair `f`, `rv`, listed in `out` as `fn` and `rn`, writing
        under `prefix`; then both files of the pair are removed, which fails when they are
        one and the same file */
    method PearAndRemove(f: string, rv: string, fn: string, rn: string, prefix: string, out: string, effect: Effect)
      returns (r: Result<string>)
      requires out in fs.dirs && fn in fs.Entries(out) && rn in fs.Entries(out)
      modifies this`commands, fs
      ensures commands == old(commands) + [PearCommand(config, tools, f, rv, prefix)]
      ensures OnlyChanged(old(fs.dirs), fs.dirs, out)
      ensures r.Success? <==> fn != rn
      ensures r.Failure? ==> r.error == NotFound(JoinPath(out, rn))
      ensures r.Success? ==> fs.dirs == old(fs.dirs)[out := ((old(fs.Entries(out)) + effect(PearCommand(config, tools, f, rv, prefix))) - {fn}) - {rn}]
    {
      ghost var d0 := fs.dirs;
      var cmd := PearCommand(config, tools, f, rv, prefix);
      RunCmd(cmd, out, effect);
      ghost var e1 := d0[out] + effect(cmd);
      var removed := fs.Remove(out, fn);
      assert removed.Success?;
      assert fs.dirs == d0[out := e1][out := e1 - {fn}];
      UpdateTwice(d0, out, e1, e1 - {fn});
      r := fs.Remove(out, rn);
      if r.Failure? {
        UpdateOnlyChanges(d0, out, e1 - {fn});
        return;
      }
      assert fs.dirs == d0[out := e1 - {fn}][out := (e1 - {fn}) - {rn}];
      UpdateTwice(d0, out, e1 - {fn}, (e1 - {fn}) - {rn});
      UpdateOnlyChanges(d0, out, (e1 - {fn}) - {rn});
    }

    /** Step 3's loop body up to PEAR's outputs: decompress the pair into `out`, run PEAR,
        remove the decompressed pair; the result is the decompressed forward path */
    method PearOnPair(cf: string, out: string, effect: Effect) returns (r: Result<string>)
      requires out in fs.dirs
      modifies this`commands, fs
      ensures OnlyChanged(old(fs.dirs), fs.dirs, out)
      ensures old(commands) <= commands
      ensures old(fs.Exists(cf) && fs.Exists(MatePath(cf))) && DropLast(Basename(cf), 3) != DropLast(Basename(MatePath(cf)), 3) ==> r.Success?
      ensures r.Failure? ==> r.error.NotFound?
      ensures r.Success? ==> r.value == UngzippedPath(cf, out)
      ensures r.Success? ==> commands == old(commands) + [PearCommandFor(config, tools, cf, out)]
      ensures r.Success? ==> fs.dirs == old(fs.dirs)[out := PearStep(config, tools, effect, old(fs.Entries(out)), cf, out)]
    {
      ghost var d0 := fs.dirs;
      if fs.Exists(cf) && fs.Exists(MatePath(cf)) {
        fs.AllExistPair(cf, MatePath(cf));
      }
      var pair := fs.UngzipFiles([cf, MatePath(cf)], out);
      if pair.Failure? {
        return Failure(pair.error);
      }
      var f, rv := pair.value[0], pair.value[1];
      // the decompressed pair's names, which is what `os.path.basename` gives of `f` and `rv`
      var fn, rn := DropLast(Basename(cf), 3), DropLast(Basename(MatePath(cf)), 3);
      UngzippedNamesPair(cf, MatePath(cf));
      ghost var e1 := d0[out] + {fn, rn};
      assert fs.dirs == d0[out := e1];
      var prefix := JoinPath(out, MergedPrefix(fn));
      assert f == UngzippedPath(cf, out) && rv == UngzippedPath(MatePath(cf), out) && prefix == PearPrefix(cf, out);
      ghost var d1 := fs.dirs;
      var removed := PearAndRemove(f, rv, fn, rn, prefix, out, effect);
      if removed.Failure? {
        OnlyChangedTrans(d0, d1, fs.dirs, out);
        return Failure(removed.error);
      }
      ghost var e2 := ((e1 + effect(PearCommand(config, tools, f, rv, prefix))) - {fn}) - {rn};
      assert fs.dirs == d0[out := e1][out := e2];
      UpdateTwice(d0, out, e1, e2);
      UpdateOnlyChanges(d0, out, e2);
      r := Success(f);
    }

    /** Step 3's loop body for the compressed forward file `cf`: PEAR's call on the pair,
        then `gzip_files` on what `glob(<prefix> + '.*.fastq')` finds */
    method MergeOne(cf: string, out: string, effect: Effect) returns (r: Result<string>)
      requires out in fs.dirs && CanonicalDir(out)
      modifies this`commands, fs
      ensures OnlyChanged(old(fs.dirs), fs.dirs, out)
      ensures old(commands) <= commands
      ensures old(fs.Exists(cf) && fs.Exists(MatePath(cf))) && DropLast(Basename(cf), 3) != DropLast(Basename(MatePath(cf)), 3) ==> r.Success?
      ensures r.Failure? ==> r.error.NotFound?
      ensures r.Success? ==> r.value == UngzippedPath(cf, out)
      ensures r.Success? ==> commands == old(commands) + [PearCommandFor(config, tools, cf, out)]
      ensures r.Success? ==> fs.dirs == old(fs.dirs)[out := MergeStep(config, tools, effect, old(fs.Entries(out)), cf, out)]
    {
      ghost var d0 := fs.dirs;
      r := PearOnPair(cf, out, effect);
      if r.Failure? {
        return;
      }
      ghost var merged := PearStep(config, tools, effect, d0[out], cf, out);
      assert fs.Entries(out) == merged;
      GzipPearOutputs(cf, out);
      ghost var zipped := MergeStep(config, tools, effect, d0[out], cf, out);
      assert fs.dirs == d0[out := merged][out := zipped];
      UpdateTwice(d0, out, merged, zipped);
      UpdateOnlyChanges(d0, out, zipped);
    }

    /** `gzip_files(glob(<prefix> + '.*.fastq'))`, where the prefix is PEAR's for `cf` */
    method GzipPearOutputs(cf: string, out: string)
      requires out in fs.dirs && CanonicalDir(out)
      modifies fs
      ensures fs.dirs == old(fs.dirs)[out := GzipMatching(old(fs.Entries(out)), MergedOutputs(MergedPrefix(DropLast(Basename(cf), 3))))]
    {
      var fn := DropLast(Basename(cf), 3);
      UngzippedNamePlain(cf);
      MergedOutputsGlob(fn, out);
      fs.GzipGlob(out, MergedOutputs(MergedPrefix(fn)));
    }

    /** Step 3: for every forward-read file, the pair is decompressed into `out`, merged
        by PEAR, the decompressed pair removed and PEAR's outputs compressed */
    method MergeReadsWithPear(inputDir: string, out: string, effect: Effect) returns (r: Result<seq<string>>)
      requires out in fs.dirs && CanonicalDir(out)
      modifies this`commands, fs
      ensures OnlyChanged(old(fs.dirs), fs.dirs, out)
      ensures old(commands) <= commands
      ensures old(fs.Found(inputDir, ForwardReads)) == {} ==>
        r == Failure(NoForwardReads(JoinPath(inputDir, PatternText(ForwardReads))))
        && fs.dirs == old(fs.dirs) && commands == old(commands)
      ensures r.Failure? ==> r.error.NoForwardReads? || r.error.NotFound?
      ensures r.Success? ==> Elements(r.value) == old(fs.Found(inputDir, ForwardReads))
      ensures r.Success? ==> commands == old(commands) + PearCommands(config, tools, r.value, out)
      ensures r.Success? ==> fs.Entries(out) == MergeFold(config, tools, effect, old(fs.Entries(out)), r.value, out)
    {
      var found := GetForwardFastqFiles(fs, inputDir);
      if found.Failure? {
        return Failure(found.error);
      }
      var cfs := found.value;
      assert cfs[..0] == [];
      for i := 0 to |cfs|
        invariant OnlyChanged(old(fs.dirs), fs.dirs, out)
        invariant commands == old(commands) + PearCommands(config, tools, cfs[..i], out)
        invariant fs.Entries(out) == MergeFold(config, tools, effect, old(fs.Entries(out)), cfs[..i], out)
      {
        ghost var before, logged := fs.dirs, commands;
        var merged := MergeOne(cfs[i], out, effect);
        OnlyChangedTrans(old(fs.dirs), before, fs.dirs, out);
        if merged.Failure? {
          LogGrows(old(commands), PearCommands(config, tools, cfs[..i], out), commands);
          return Failure(merged.error);
        }
        PearCommandsStep(config, tools, cfs, i, out, old(commands));
        MergeFoldStep(config, tools, effect, old(fs.Entries(out)), cfs, i, out);
      }
      assert cfs[..|cfs|] == cfs;
      LogGrows(old(commands), PearCommands(config, tools, cfs, out), commands);
      r := Success(cfs);
    }

    /** Step 4: vsearch filters every `*.assembled.fastq.gz` file; its outputs are compressed */
    method FilterReadsWithVsearch(inputDir: string, out: string, effect: Effect) returns (fps: seq<string>)
      requires out in fs.dirs && CanonicalDir(out)
      modifies this`commands, fs
      ensures Elements(fps) == old(fs.Found(inputDir, Assembled))
      ensures commands == old(commands) + FilterCommands(config, tools, fps, out)
      ensures fs.dirs == old(fs.dirs)[out := GzipMatching(old(fs.Entries(out)) + EffectsOf(effect, FilterCommands(config, tools, fps, out)), AssembledStarFastq)]
    {
      fps := fs.GlobList(inputDir, Assembled);
      RunAndGzip(FilterCommands(config, tools, fps, out), out, effect, AssembledStarFastq);
    }

    /** The commands run one after the other in `out`, then `gzip_files` compresses the
        files of `out` that `p` matches */
    method RunAndGzip(cmds: seq<Command>, out: string, effect: Effect, p: Pattern)
      requires out in fs.dirs && CanonicalDir(out)
      requires p == AssembledStarFastq || p == Fasta
      modifies this`commands, fs
      ensures commands == old(commands) + cmds
      ensures fs.dirs == old(fs.dirs)[out := GzipMatching(old(fs.Entries(out)) + EffectsOf(effect, cmds), p)]
    {
      ghost var d0 := fs.dirs;
      RunEach(cmds, out, effect);
      ghost var ran := d0[out] + EffectsOf(effect, cmds);
      assert fs.Entries(out) == ran;
      GlobDirOfPlain(out, p);
      fs.GzipGlob(out, p);
      UpdateTwice(d0, out, ran, GzipMatching(ran, p));
    }

    /** Step 5: the `*.assembled.*.fastq.gz` files, in sorted order, are concatenated into
        one file named after all of them */
    method CombineRunFiles(inputDir: string, out: string) returns (r: Result<seq<string>>)
      requires out in fs.dirs
      modifies fs
      ensures r.Failure? <==> inputDir !in old(fs.dirs) || old(fs.Found(inputDir, AssembledStar)) == {}
      ensures r.Failure? ==> fs.dirs == old(fs.dirs)
      ensures r.Failure? && inputDir !in old(fs.dirs) ==> r.error == old(fs.ListDir(inputDir)).error
      ensures r.Failure? && inputDir in old(fs.dirs) ==> r.error == EmptyCombineInput
      ensures r.Success? ==> StrictlySorted(r.value) && Elements(r.value) == old(fs.Found(inputDir, AssembledStar))
      ensures r.Success? ==> fs.dirs == old(fs.dirs)[out := old(fs.Entries(out)) + {Combine.CombinedFileName(r.value).value}]
    {
      var listing := fs.ListDir(inputDir);
      if listing.Failure? {
        return Failure(listing.error);
      }
      var fps := fs.SortedGlob(inputDir, AssembledStar);
      var name := Combine.CombinedFileName(fps);
      if name.Failure? {
        return Failure(name.error);
      }
      assert fps[0] in Elements(fps);
      fs.Write(out, name.value);
      r := Success(fps);
    }

    /** Step 6: vsearch dereplicates every `*.assembled.*.fastq.gz` file, in sorted order;
        its FASTA outputs are compressed */
    method DereplicateReads(inputDir: string, out: string, effect: Effect) returns (r: Result<seq<string>>)
      requires out in fs.dirs && CanonicalDir(out)
      modifies this`commands, fs
      ensures r.Failure? <==> inputDir !in old(fs.dirs)
      ensures r.Failure? ==> r.error == old(fs.ListDir(inputDir)).error
      ensures r.Failure? ==> fs.dirs == old(fs.dirs) && commands == old(commands)
      ensures r.Success? ==> StrictlySorted(r.value) && Elements(r.value) == old(fs.Found(inputDir, AssembledStar))
      ensures r.Success? ==> commands == old(commands) + DerepCommands(config, tools, r.value, out)
      ensures r.Success? ==> fs.dirs == old(fs.dirs)[out := GzipMatching(old(fs.Entries(out)) + EffectsOf(effect, DerepCommands(config, tools, r.value, out)), Fasta)]
    {
      var listing := fs.ListDir(inputDir);
      if listing.Failure? {
        return Failure(listing.error);
      }
      var fps := fs.SortedGlob(inputDir, AssembledStar);
      RunAndGzip(DerepCommands(config, tools, fps, out), out, effect, Fasta);
      r := Success(fps);
    }

    /** usearch on the decompressed file `f`, listed in `out` as `name`, then the file is removed */
    method ClusterAndRemove(f: string, name: string, out: string, effect: Effect)
      requires out in fs.dirs && name in fs.Entries(out)
      modifies this`commands, fs
      ensures commands == old(commands) + [ClusterCommand(tools, f, out)]
      ensures fs.dirs == old(fs.dirs)[out := (old(fs.Entries(out)) + effect(ClusterCommand(tools, f, out))) - {name}]
    {
      ghost var d0 := fs.dirs;
      RunCmd(ClusterCommand(tools, f, out), out, effect);
      ghost var e1 := d0[out] + effect(ClusterCommand(tools, f, out));
      var removed := fs.Remove(out, name);
      assert removed.Success?;
      assert fs.dirs == d0[out := e1][out := e1 - {name}];
      UpdateTwice(d0, out, e1, e1 - {name});
    }

    /** Step 7's loop body for the compressed file `cf`: decompress it into `out`, cluster,
        remove the decompressed file; the result is the decompressed path */
    method ClusterOne(cf: string, out: string, effect: Effect) returns (r: Result<string>)
      requires out in fs.dirs
      modifies this`commands, fs
      ensures OnlyChanged(old(fs.dirs), fs.dirs, out)
      ensures r.Success? <==> old(fs.Exists(cf))
      ensures r.Failure? ==> r.error == NotFound(cf) && fs.dirs == old(fs.dirs) && commands == old(commands)
      ensures r.Success? ==> r.value == UngzippedPath(cf, out)
      ensures r.Success? ==> commands == old(commands) + [ClusterCommandFor(tools, cf, out)]
      ensures r.Success? ==> fs.dirs == old(fs.dirs)[out := ClusterStep(tools, effect, old(fs.Entries(out)), cf, out)]
    {
      ghost var d0 := fs.dirs;
      var single := fs.UngzipFile(cf, out);
      if single.Failure? {
        return Failure(single.error);
      }
      var f, name := single.value, DropLast(Basename(cf), 3);
      ghost var e1 := d0[out] + {name};
      assert fs.dirs == d0[out := e1];
      ClusterAndRemove(f, name, out, effect);
      ghost var e2 := (e1 + effect(ClusterCommand(tools, f, out))) - {name};
      assert fs.dirs == d0[out := e1][out := e2];
      UpdateTwice(d0, out, e1, e2);
      UpdateOnlyChanges(d0, out, e2);
      r := Success(f);
    }

    /** Step 7: every `*.fasta.gz` file, in sorted order, is decompressed into `out`,
        clustered by usearch, and its decompressed copy removed */
    method ClusterOtus(inputDir: string, out: string, effect: Effect) returns (r: Result<seq<string>>)
      requires out in fs.dirs && CanonicalDir(out)
      modifies this`commands, fs
      ensures OnlyChanged(old(fs.dirs), fs.dirs, out)
      ensures old(commands) <= commands
      ensures r.Failure? ==> r.error.NotFound?
      ensures r.Success? ==> StrictlySorted(r.value) && Elements(r.value) == old(fs.Found(inputDir, FastaGz))
      ensures r.Success? ==> commands == old(commands) + ClusterCommands(tools, r.value, out)
      ensures r.Success? ==> fs.Entries(out) == ClusterFold(tools, effect, old(fs.Entries(out)), r.value, out)
    {
      var cfs := fs.SortedGlob(inputDir, FastaGz);
      assert cfs[..0] == [];
      for i := 0 to |cfs|
        invariant OnlyChanged(old(fs.dirs), fs.dirs, out)
        invariant commands == old(commands) + ClusterCommands(tools, cfs[..i], out)
        invariant fs.Entries(out) == ClusterFold(tools, effect, old(fs.Entries(out)), cfs[..i], out)
      {
        ghost var before := fs.dirs;
        var clustered := ClusterOne(cfs[i], out, effect);
        OnlyChangedTrans(old(fs.dirs), before, fs.dirs, out);
        if clustered.Failure? {
          return Failure(clustered.error);
        }
        ClusterCommandsStep(tools, cfs, i, out, old(commands));
        ClusterFoldStep(tools, effect, old(fs.Entries(out)), cfs, i, out);
      }
      assert cfs[..|cfs|] == cfs;
      r := Success(cfs);
    }

    /** Step 8: vsearch chimera detection on every `*.fasta` file */
    method DetectChimeras(inputDir: string, out: string, effect: Effect) returns (fps: seq<string>)
      requires out in fs.dirs
      modifies this`commands, fs
      ensures Elements(fps) == old(fs.Found(inputDir, Fasta))
      ensures commands == old(commands) + UchimeCommands(config, tools, fps, out)
      ensures fs.dirs == old(fs.dirs)[out := old(fs.Entries(out)) + EffectsOf(effect, UchimeCommands(config, tools, fps, out))]
    {
      fps := fs.GlobList(inputDir, Fasta);
      RunEach(UchimeCommands(config, tools, fps, out), out, effect);
    }

    /** Step 9: one `*rad3.uchime.fasta` file of the input directory holds the OTUs; every
        `*.assembled.fastq.gz` file of the merge stage's directories is converted to FASTA
        and mapped onto them */
    method CreateOtuTable(inputDir: string, out: string, effect: Effect) returns (r: Result<seq<string>>, otusFp: string)
      requires out in fs.dirs
      modifies this`commands, fs
      ensures r.Failure? <==> old(fs.Found(inputDir, OtuFasta)) == {}
      ensures r.Failure? ==> r.error == NoOtuFile(JoinPath(inputDir, PatternText(OtuFasta)))
      ensures r.Failure? ==> fs.dirs == old(fs.dirs) && commands == old(commands)
      ensures r.Success? ==> otusFp in old(fs.Found(inputDir, OtuFasta))
      ensures r.Success? ==> Elements(r.value) == old(fs.FoundIn(fs.Found(config.workDir, MergeStageDir) * fs.dirs.Keys, Assembled))
      ensures r.Success? ==> commands == old(commands) + OtuTableCommands(tools, r.value, otusFp, out)
      ensures r.Success? ==> fs.dirs == old(fs.dirs)[out := old(fs.Entries(out)) + EffectsOf(effect, OtuTableCommands(tools, r.value, otusFp, out))]
    {
      var otus := fs.GlobList(inputDir, OtuFasta);
      if otus == [] {
        return Failure(NoOtuFile(JoinPath(inputDir, PatternText(OtuFasta)))), "";
      }
      otusFp := otus[0];
      assert otusFp in Elements(otus);
      var subdirs := fs.GlobDirs(config.workDir, MergeStageDir);
      var fps := fs.GlobEach(subdirs, Assembled);
      RunEach(OtuTableCommands(tools, fps, otusFp, out), out, effect);
      r := Success(fps);
    }

    // -------------------------------------------------------------------------
    // One stage, and the whole run

    /** What a stage does when its directory `out` looks empty; `None` when that went well */
    method StageWork(s: Stage, inputDir: string, out: string, effect: Effect) returns (err: Option<Error>)
      requires out == StageDir(s) && out in fs.dirs
      modifies this`commands, fs
      ensures OnlyChanged(old(fs.dirs), fs.dirs, out)
      ensures old(commands) <= commands
    {
      if s.CopyAndCompress? || s.RemovePrimers? || s.MergeReads? || s.FilterReads? || s.CombineRuns? {
        err := PrepareReads(s, inputDir, out, effect);
      } else {
        err := BuildOtus(s, inputDir, out, effect);
      }
    }

    /** Steps 1 to 5, which turn the raw reads into one combined file */
    method PrepareReads(s: Stage, inputDir: string, out: string, effect: Effect) returns (err: Option<Error>)
      requires out == StageDir(s) && out in fs.dirs
      requires s.CopyAndCompress? || s.RemovePrimers? || s.MergeReads? || s.FilterReads? || s.CombineRuns?
      modifies this`commands, fs
      ensures OnlyChanged(old(fs.dirs), fs.dirs, out)
      ensures old(commands) <= commands
    {
      StageDirSpec(s, s);
      ghost var d0, c0 := fs.dirs, commands;
      err := None;
      match s
      case CopyAndCompress =>
        var r := CopyAndCompressFiles(inputDir, out);
        if r.Failure? {
          return Some(r.error);
        }
        UpdateOnlyChanges(d0, out, d0[out] + CopiedNames(r.value));
      case RemovePrimers =>
        var r := RemovePrimersWithCutadapt(inputDir, out, effect);
        if r.Failure? {
          return Some(r.error);
        }
        UpdateOnlyChanges(d0, out, d0[out] + EffectsOf(effect, CutadaptCommands(config, tools, r.value, out)));
        LogGrows(c0, CutadaptCommands(config, tools, r.value, out), commands);
      case MergeReads =>
        var r := MergeReadsWithPear(inputDir, out, effect);
        if r.Failure? {
          return Some(r.error);
        }
      case FilterReads =>
        var fps := FilterReadsWithVsearch(inputDir, out, effect);
        UpdateOnlyChanges(d0, out, GzipMatching(d0[out] + EffectsOf(effect, FilterCommands(config, tools, fps, out)), AssembledStarFastq));
        LogGrows(c0, FilterCommands(config, tools, fps, out), commands);
      case CombineRuns =>
        var r := CombineRunFiles(inputDir, out);
        if r.Failure? {
          return Some(r.error);
        }
        UpdateOnlyChanges(d0, out, d0[out] + {Combine.CombinedFileName(r.value).value});
    }

    /** Steps 6 to 9, which build the OTUs and the OTU table from the combined reads */
    method BuildOtus(s: Stage, inputDir: string, out: string, effect: Effect) returns (err: Option<Error>)
      requires out == StageDir(s) && out in fs.dirs
      requires s.Dereplicate? || s.Cluster? || s.ChimeraDetection? || s.OtuTable?
      modifies this`commands, fs
      ensures OnlyChanged(old(fs.dirs), fs.dirs, out)
      ensures old(commands) <= commands
    {
      StageDirSpec(s, s);
      ghost var d0, c0 := fs.dirs, commands;
      err := None;
      match s
      case Dereplicate =>
        var r := DereplicateReads(inputDir, out, effect);
        if r.Failure? {
          return Some(r.error);
        }
        UpdateOnlyChanges(d0, out, GzipMatching(d0[out] + EffectsOf(effect, DerepCommands(config, tools, r.value, out)), Fasta));
        LogGrows(c0, DerepCommands(config, tools, r.value, out), commands);
      case Cluster =>
        var r := ClusterOtus(inputDir, out, effect);
        if r.Failure? {
          return Some(r.error);
        }
      case ChimeraDetection =>
        var fps := DetectChimeras(inputDir, out, effect);
        UpdateOnlyChanges(d0, out, d0[out] + EffectsOf(effect, UchimeCommands(config, tools, fps, out)));
        LogGrows(c0, UchimeCommands(config, tools, fps, out), commands);
      case OtuTable =>
        var r, otusFp := CreateOtuTable(inputDir, out, effect);
        if r.Failure? {
          return Some(r.error);
        }
        UpdateOnlyChanges(d0, out, d0[out] + EffectsOf(effect, OtuTableCommands(tools, r.value, otusFp, out)));
        LogGrows(c0, OtuTableCommands(tools, r.value, otusFp, out), commands);
    }

    /** A stage of the pipeline method: `initialize_step`, the checkpoint test, the work
        when the directory looks empty, then `complete_step`; the result is the stage's
        directory */
    method RunStage(s: Stage, inputDir: string, effect: Effect) returns (r: Result<string>)
      modifies this, fs
      ensures r.Success? ==> r.value == StageDir(s) && StageDir(s) in fs.dirs && fs.Entries(StageDir(s)) != {}
      ensures Grew(old(fs.dirs), fs.dirs, StageDir(s))
      ensures old(commands) <= commands
      ensures old(fs.Exists(StageDir(s))) && StageDir(s) !in old(fs.dirs) ==>
        r == Failure(NotADirectory(StageDir(s))) && fs.dirs == old(fs.dirs) && commands == old(commands)
      ensures Finished(old(fs.dirs), s) ==>
        r == Success(StageDir(s)) && fs.dirs == old(fs.dirs) && commands == old(commands)
      ensures calls == old(calls) + [(s, inputDir)]
    {
      calls := calls + [(s, inputDir)];
      var out := InitializeStep(s);
      ghost var d1 := fs.dirs;
      var listing := fs.ListDir(out);
      if listing.Failure? {
        return Failure(listing.error);
      }
      if NeedsRun(s, listing.value) {
        var err := StageWork(s, inputDir, out, effect);
        OnlyChangedGrew(d1, fs.dirs, out);
        GrewTrans(old(fs.dirs), d1, fs.dirs, out);
        if err.Some? {
          return Failure(err.value);
        }
      }
      r := CompleteStep(out);
    }

    /** `run`: the stages in order, each reading the directory the previous one returned;
        the result lists the nine stage directories */
    method Run(inputDir: string, effect: Effect) returns (r: Result<seq<string>>)
      modifies this, fs
      ensures r.Success? ==> r.value == StageDirs() && AllNonEmpty(fs.dirs, r.value)
      ensures old(commands) <= commands
      ensures (forall i :: 0 <= i < 9 ==> Finished(old(fs.dirs), Stages()[i])) ==>
        r.Success? && fs.dirs == old(fs.dirs) && commands == old(commands)
      ensures r.Success? ==> calls == old(calls) + Chain(inputDir)
      ensures r.Failure? ==> exists k :: 0 < k <= 9 && calls == old(calls) + Chain(inputDir)[..k]
    {
      ghost var allFinished := forall k :: 0 <= k < 9 ==> Finished(old(fs.dirs), Stages()[k]);
      var input := inputDir;
      var outs: seq<string> := [];
      for i := 0 to 9
        invariant outs == StageDirs()[..i]
        invariant AllNonEmpty(fs.dirs, outs)
        invariant old(commands) <= commands
        invariant allFinished ==> fs.dirs == old(fs.dirs) && commands == old(commands)
        invariant input == if i == 0 then inputDir else StageDirs()[i - 1]
        invariant calls == old(calls) + Chain(inputDir)[..i]
      {
        var s := Stages()[i];
        ghost var d0, c0 := fs.dirs, commands;
        assert allFinished ==> Finished(d0, s);
        var o := RunStage(s, input, effect);
        PrefixTrans(old(commands), c0, commands);
        NextStageDir(i);
        NextCall(inputDir, i, input);
        CallsAppend(old(calls), Chain(inputDir)[..i], (s, input));
        if o.Failure? {
          return Failure(o.error);
        }
        EarlierStageDirs(i);
        GrewKeepsNonEmpty(d0, fs.dirs, StageDir(s), outs);
        AllNonEmptySnoc(fs.dirs, outs, o.value);
        outs := outs + [o.value];
        input := o.value;
      }
      assert StageDirs()[..9] == StageDirs();
      assert Chain(inputDir)[..9] == Chain(inputDir);
      r := Success(outs);
    }

    /** The directories of the nine stages, in `run`'s order */
    function StageDirs(): (d: seq<string>)
      ensures |d| == 9
      ensures forall i :: 0 <= i < 9 ==> CanonicalDir(d[i])
      ensures forall i, j :: 0 <= i < j < 9 ==> d[i] != d[j]
    {
      var d := seq(9, i requires 0 <= i < 9 => StageDir(Stages()[i]));
      assert forall i, j :: 0 <= i < j < 9 ==> d[i] != d[j] by {
        forall i, j | 0 <= i < j < 9 {
          StageDirSpec(Stages()[i], Stages()[j]);
        }
      }
      d
    }

    /** The calls `run` makes: every stage in order, the first handed the input
        directory and each later one the directory of the stage before it */
    function Chain(inputDir: string): (c: seq<(Stage, string)>)
      ensures |c| == 9
    {
      seq(9, i requires 0 <= i < 9 => CallOf(inputDir, i))
    }

    /** `run`'s call of stage `i` */
    function CallOf(inputDir: string, i: nat): (Stage, string)
      requires i < 9
    {
      (Stages()[i], if i == 0 then inputDir else StageDir(Stages()[i - 1]))
    }

    /** One more stage: one more directory */
    lemma NextStageDir(i: nat)
      requires i < 9
      ensures StageDirs()[..i + 1] == StageDirs()[..i] + [StageDir(Stages()[i])]
    {
      TakeSnoc(StageDirs(), i);
    }

    /** One more stage: one more call */
    lemma {:induction false} NextCall(inputDir: string, i: nat, input: string)
      requires i < 9
      requires input == if i == 0 then inputDir else StageDirs()[i - 1]
      ensures Chain(inputDir)[..i + 1] == Chain(inputDir)[..i] + [(Stages()[i], input)]
    {
      TakeSnoc(Chain(inputDir), i);
      assert Chain(inputDir)[i] == CallOf(inputDir, i);
    }

    lemma CallsAppend(a: seq<(Stage, string)>, b: seq<(Stage, string)>, c: (Stage, string))
      ensures (a + b) + [c] == a + (b + [c])
    {
    }

    /** The directories of the stages before stage `i` are not stage `i`'s */
    lemma {:induction false} EarlierStageDirs(i: nat)
      requires i < 9
      ensures StageDir(Stages()[i]) !in StageDirs()[..i]
    {
      forall j | 0 <= j < i
        ensures StageDirs()[j] != StageDir(Stages()[i])
      {
        StageDirSpec(Stages()[j], Stages()[i]);
      }
    }

    /** Stage `s` left output that its checkpoint test sees: running it changes nothing */
    predicate Finished(dirs: map<string, set<string>>, s: Stage) {
      StageDir(s) in dirs && !NeedsRun(s, dirs[StageDir(s)])
    }
  }
}
