# cluster_16S pipeline, modelled in Dafny

A model of the core of `cluster_16S/pipeline.py`. That file holds a nine-stage
16S amplicon pipeline. The stages are:

1. copy and compress the reads;
2. remove primers with cutadapt;
3. merge pairs with PEAR;
4. quality-filter with vsearch;
5. combine runs;
6. dereplicate;
7. cluster OTUs with usearch;
8. detect chimeras;
9. build the OTU table.

Each stage writes into its own checkpoint directory `<work_dir>/<stage method name>`. A stage is skipped when that directory already holds output.

The model covers:

- the stage executor and its checkpoint guard: `run`, `initialize_step`,
  `complete_step` and `create_output_dir`;
- the pure naming functions: `get_combined_file_name`,
  `get_associated_reverse_fastq_fp`, and the output-name rewrites of every stage;
- forward-read discovery;
- the file-name arithmetic of `gzip_files` and `ungzip_files`.

The files are:

- `text.dfy` (module `Text`): the string operations the program relies on:
  - `startswith`, `endswith` and `in`;
  - `s[:-k]`;
  - `str(int)`;
  - Python's code-point string order;
  - `sorted(set(xs))`;
  - `split` and `join`.
- `paths.dfy` (module `Paths`): POSIX `os.path.split`, `basename`, `dirname` and
  two-argument `join`.
- `naming.dfy` (module `Naming`):
  - the `_([0R])1` substitution and the mate name;
  - the glob patterns, as predicates on directory entries;
  - the literal and `$`-anchored `re.sub` rewrites;
  - every stage's output names;
  - the gzip and ungzip naming.
- `combine.dfy` (module `Combine`): `get_combined_file_name`.
- `errors.dfy` (module `Errors`): the ways a run stops, and `Result`/`Option`.
- `files.dfy` (module `Files`): the file system, as a class `FileSystem` whose
  field `dirs` maps each directory path to the set of names it lists. It also
  holds:
  - `glob`, `listdir`, `mkdir`, `remove`, writing a file;
  - `gzip_files` and `ungzip_files`.
- `pipeline.dfy`, with two modules:
  - module `Steps`: the nine stages and their names;
  - module `Pipeline`: the `Pipeline` class, described below.

In the `Pipeline` class, an external tool is not run. A stage appends each
argument vector it would hand to `run_cmd` to the field `commands`. A parameter
`effect` (a function from command to set of names) says which entries that
command leaves in the stage's directory. The ghost field `calls` records each
stage call and the input directory it was handed.

## Model

| member | source | states |
|---|---|---|
| Combine.CombinedFileName | cluster_16S/pipeline.py:613-629 | fails with the empty-input error exactly when the list of paths is empty |
| Combine.TokenRowsSpec | cluster_16S/pipeline.py:626-628 | each input's row of tokens is non-empty, no token holds '_' or '/', and the tokens joined with '_' give back the input's file name |
| Combine.MinLen | cluster_16S/pipeline.py:625 | the length `zip` stops at: no row is shorter, and some row has exactly that length |
| Combine.Groups | cluster_16S/pipeline.py:617-625 | one group per zipped position, as many as the shortest token list; each group is strictly increasing and holds exactly the distinct tokens of its column |
| Combine.FlattenMember | cluster_16S/pipeline.py:621 | every token of the chained list comes from one of the groups |
| Combine.CombinedFileNameOfOneName | cluster_16S/pipeline.py:620-629 | one path, or several paths with one basename, give that basename back |
| Combine.CombinedFileNameBySet | cluster_16S/pipeline.py:617-628 | the name depends only on the set of basenames: reordering or repeating the inputs gives the same result |
| Combine.CombinedFileNameTwoRuns | cluster_16S/pipeline.py:613-629 | `<sample>_<run1>_<tail>` and `<sample>_<run2>_<tail>`, with `run1 < run2`, combine to `<sample>_<run1>_<run2>_<tail>` |
| Combine.CombinedFileNameHasNoSlash | cluster_16S/pipeline.py:349-352 | the combined name has no '/', so step 5 writes it into its own directory |
| Text.SortedDistinct | cluster_16S/pipeline.py:617-618 | `sorted(set(xs))` is strictly increasing and holds exactly the elements of `xs` |
| Text.InsertDistinct | cluster_16S/pipeline.py:617-618 | inserting into a strictly increasing list keeps it strictly increasing and adds exactly the new element |
| Text.StrictlySortedUnique | cluster_16S/pipeline.py:617-618 | two strictly increasing lists with the same elements are equal |
| Text.SortedDistinctBySet | cluster_16S/pipeline.py:617-618 | `sorted(set(xs))` depends only on the set of elements of `xs` |
| Text.SortedDistinctKeepsAll | cluster_16S/pipeline.py:148 | sorting a glob result, which has no repetitions, keeps every path |
| Text.LessTransitive | cluster_16S/pipeline.py:618 | the code-point order `sorted` uses is transitive |
| Text.LessTotal | cluster_16S/pipeline.py:618 | any two different strings are ordered one way or the other |
| Text.JoinSplit | cluster_16S/pipeline.py:620-628 | joining the pieces of `s.split(sep)` with `sep` gives back `s` |
| Text.SplitJoin | cluster_16S/pipeline.py:620-628 | splitting a join of separator-free tokens gives back the tokens |
| Text.SplitOn | cluster_16S/pipeline.py:628 | `split` returns at least one piece, and no piece holds the separator |
| Text.DropLast | cluster_16S/pipeline.py:606 | `s[:-k]` is a prefix of `s`, `k` shorter, or empty when `s` is shorter than `k` |
| Text.IntToString | cluster_16S/pipeline.py:202 | `str(i)` is non-empty, made of digits and a sign, and starts with '-' exactly for negative `i` |
| Paths.Basename | cluster_16S/pipeline.py:154 | the basename is a suffix of the path and holds no '/' |
| Paths.RStripSlashes | cluster_16S/pipeline.py:584 | the head `os.path.split` returns is a prefix with trailing slashes removed, non-empty unless it was all slashes |
| Paths.DirnameOfJoin | cluster_16S/pipeline.py:584-589 | splitting `join(d, n)` gives back `d` and `n` when `d` is in split form and `n` has no '/' |
| Paths.BasenameOfJoin | cluster_16S/pipeline.py:606 | the basename of `join(d, n)` is `n` for a name without '/' |
| Paths.JoinIsCanonical | cluster_16S/pipeline.py:584-589 | a path joined from a directory in split form splits and joins back to itself |
| Paths.JoinPathInjective | cluster_16S/pipeline.py:127 | distinct names give distinct paths in one directory |
| Paths.BasenameAppend | cluster_16S/pipeline.py:596 | appending text without '/' to a path extends its basename by that text |
| Naming.MateNamePointwise | cluster_16S/pipeline.py:583-590 | the mate name has the same length, and differs from the forward name exactly at the `1` of each `_R1`/`_01`, which becomes `2` |
| Naming.MateNameHasNoMarker | cluster_16S/pipeline.py:585-588 | no `_R1` or `_01` is left in a mate name |
| Naming.MateNameIdempotent | cluster_16S/pipeline.py:585-588 | rewriting a mate name again changes nothing |
| Naming.MatePathSameDirectory | cluster_16S/pipeline.py:583-590 | the mate path keeps the directory, rewrites only the basename, and for a path in split form has the same length |
| Naming.MatePathIdempotent | cluster_16S/pipeline.py:583-590 | the mate of a mate path is that path |
| Naming.MateNameOfSimpleName | cluster_16S/pipeline.py:585-588 | `sample_R1.fastq.gz` becomes `sample_R2.fastq.gz`, and `sample_01…` becomes `sample_02…` |
| Naming.SubMarkerConcat | cluster_16S/pipeline.py:585-588 | the left-to-right substitution works piece by piece when no match straddles the joint |
| Naming.SubMarkerNoMatch | cluster_16S/pipeline.py:585-588 | without a marker the substitution changes nothing |
| Naming.SubMarkerAvoidsSlash | cluster_16S/pipeline.py:585-588 | the substitution introduces no '/' |
| Naming.ForwardNameMatchesGlob | cluster_16S/pipeline.py:575-577 | the computable matcher accepts exactly the non-hidden names that have a marker followed later by `.fastq` (`*_[R0]1*.fastq*`) |
| Naming.GzipTargetsAreUncompressed | cluster_16S/pipeline.py:593-599 | no name handed to `gzip_files` ends in `.gz` |
| Naming.ReplaceAllFinal | cluster_16S/pipeline.py:314-318 | an unanchored literal `re.sub` whose only occurrence is a suffix replaces exactly that suffix |
| Naming.ReplaceAtEndSuffix | cluster_16S/pipeline.py:377 | a `$`-anchored rewrite of a name with that suffix swaps the suffix |
| Naming.ReplaceAtEndInjective | cluster_16S/pipeline.py:377 | a `$`-anchored rewrite tells apart distinct names that carry the suffix |
| Naming.CompressedCopyName | cluster_16S/pipeline.py:154-160 | step 1's destination name has no '/' |
| Naming.CompressedCopyNameSpec | cluster_16S/pipeline.py:154-160 | step 1's destination ends in `.gz`, is still a `*.fastq*` name, and is the input's basename plus `.gz` when the input is not compressed |
| Naming.TrimmedNamesArePaired | cluster_16S/pipeline.py:182-193 | step 2's reverse output name is the mate name of its forward output name |
| Naming.TrimmedNamesDiffer | cluster_16S/pipeline.py:182-193 | step 2's two output names differ for a name with a marker |
| Naming.MergedPrefixOfFastq | cluster_16S/pipeline.py:276-279 | for `<stem>.fastq`, PEAR's prefix is the stem with each marker replaced by `_merged` |
| Naming.FilterTag | cluster_16S/pipeline.py:317 | step 4's inserted text is non-empty and starts with '.' |
| Naming.FilteredNameOfAssembled | cluster_16S/pipeline.py:314-318 | step 4 rewrites `<stem>.fastq.gz` to `<stem>.ee{maxee}trunc{trunclen}.fastq` |
| Naming.FilteredNameFeedsCombine | cluster_16S/pipeline.py:314-346 | step 4's output for an assembled file, once compressed, matches step 5's glob `*.assembled.*.fastq.gz` |
| Naming.AssembledStarName | cluster_16S/pipeline.py:344 | `<stem>.assembled.<mid>.fastq.gz` matches `*.assembled.*.fastq.gz` |
| Naming.DerepNamesSpec | cluster_16S/pipeline.py:373-385 | step 6's two outputs differ, distinct inputs get distinct outputs, and the compressed FASTA output matches step 7's glob `*.fasta.gz` |
| Naming.ClusterNamesSpec | cluster_16S/pipeline.py:414-432 | step 7's decompressed input is a `*.fasta` name, its two outputs differ, and the OTU file is a `*.rad3.fasta` name that step 8's glob finds |
| Naming.ChimeraNamesPlain | cluster_16S/pipeline.py:456-468 | step 8's output names for a `*.fasta` file hold no '/', so both land in the stage directory |
| Naming.ChimeraNamesSpec | cluster_16S/pipeline.py:456-468 | step 8's two outputs differ, and the chimera-free output matches step 9's glob `*rad3.uchime.fasta` |
| Naming.OtuTableNamesSpec | cluster_16S/pipeline.py:520-531 | step 9's two table names differ, and distinct inputs get distinct tables |
| Naming.UngzippedPathSplits | cluster_16S/pipeline.py:605-606 | the decompressed copy lies in the target directory under `basename(fp)[:-3]` |
| Naming.UngzipUndoesGzip | cluster_16S/pipeline.py:596-606 | decompressing `fp + '.gz'` into `fp`'s directory gives back `fp` |
| Files.FileSystem.ListDir | cluster_16S/pipeline.py:132 | `os.listdir` succeeds exactly on a directory; otherwise it reports a file where a directory is expected, or a missing path |
| Files.FileSystem.Glob | cluster_16S/pipeline.py:148 | a glob returns without repetition exactly the non-hidden entries of the globbed directory that match the pattern |
| Files.FileSystem.SortedGlob | cluster_16S/pipeline.py:148 | `sorted(glob(...))` is strictly increasing and holds exactly the matches |
| Files.FileSystem.GlobList | cluster_16S/pipeline.py:312 | an unsorted glob holds exactly the matches; no order is claimed |
| Files.FileSystem.GlobDirs | cluster_16S/pipeline.py:504 | the `step_03*` part of step 9's glob yields exactly the matching names that are directories |
| Files.FileSystem.GlobEach | cluster_16S/pipeline.py:504 | step 9's two-level glob yields exactly the matches in the matched directories |
| Files.FileSystem.Write | cluster_16S/pipeline.py:353 | writing a file adds its name to the directory and changes nothing else |
| Files.FileSystem.Remove | cluster_16S/pipeline.py:296-297 | `os.remove` succeeds exactly when the name is listed and then drops only it; otherwise it reports the missing path and changes nothing |
| Files.FileSystem.MakeDir | cluster_16S/pipeline.py:569 | `os.mkdir` adds an empty directory and lists it in its parent |
| Files.WithDir | cluster_16S/pipeline.py:569 | after `mkdir(d)`, `d` is empty, no directory is lost, and every other directory keeps its entries |
| Files.FileSystem.WriteAll | cluster_16S/pipeline.py:632-642 | the names a tool leaves are added to the directory, and nothing else changes |
| Files.FileSystem.GzipFiles | cluster_16S/pipeline.py:593-599 | compressing files in order writes each `n.gz` and removes `n` |
| Files.GzipFoldSet | cluster_16S/pipeline.py:593-599 | compressing uncompressed names in any order leaves the same directory: the names are replaced by their `.gz` forms |
| Files.FileSystem.GzipGlob | cluster_16S/pipeline.py:299 | `gzip_files(glob(p))` replaces every matching entry of the globbed directory by its `.gz` form |
| Files.FileSystem.UngzipFile | cluster_16S/pipeline.py:605-609 | decompressing one file succeeds exactly when it exists, returns `join(target, basename[:-3])` and adds that name |
| Files.FileSystem.UngzipFiles | cluster_16S/pipeline.py:602-610 | returns one decompressed path per input, in order, and adds their names to the target. It fails only on a missing input; then only the target changed, and only by growing |
| Pipeline.ExecutablesFrom | cluster_16S/pipeline.py:102-105 | a tool whose environment variable is set runs from that value; an unset variable falls back to the tool's bare name |
| Pipeline.CreateOutputDir | cluster_16S/pipeline.py:556-570 | fails unless exactly one of `parent_dir`/`input_dir` is given; the result is `join(parent, name)` with `dirname(input_dir)` as the parent when `input_dir` is given; an existing path is left alone, a missing one is created |
| Pipeline.GetForwardFastqFiles | cluster_16S/pipeline.py:573-580 | fails with the glob in the message exactly when nothing matches `*_[R0]1*.fastq*`; otherwise it returns exactly the matching paths |
| Pipeline.CutadaptCommandPairs | cluster_16S/pipeline.py:177-205 | cutadapt reads a forward file and its mate from one directory, and writes a forward/mate pair into the stage directory |
| Pipeline.CutadaptCommands | cluster_16S/pipeline.py:195-205 | one cutadapt command per forward file, in order. The `i`-th reads the `i`-th forward file and its mate, and writes into the stage directory a trimmed forward file and its mate |
| Pipeline.UchimeCommands | cluster_16S/pipeline.py:454-492 | one chimera-detection command per input, in order, reading that input. For a `*.rad3.fasta` input the two outputs differ, and the chimera-free one is a name step 9's glob `*rad3.uchime.fasta` finds |
| Pipeline.OtuTableCommandReadsFasta | cluster_16S/pipeline.py:506-541 | step 9 maps exactly the FASTA file it has just written onto the OTUs, and its two tables differ |
| Pipeline.OtuTableCommands | cluster_16S/pipeline.py:505-541 | two commands per input, in order: the FASTA conversion, then the table |
| Pipeline.EffectsOf | cluster_16S/pipeline.py:284-293 | the effects of a command list are exactly the union of its commands' effects: each is included, and every name comes from some command |
| Pipeline.PearCommandsAt | cluster_16S/pipeline.py:268-293 | step 3's `i`-th PEAR call belongs to its `i`-th forward file |
| Pipeline.ClusterCommandsAt | cluster_16S/pipeline.py:412-441 | step 7's `i`-th usearch call belongs to its `i`-th compressed file |
| Pipeline.StageNameMergeDir | cluster_16S/pipeline.py:504 | the only stage directory that matches `step_03*` is the merge stage's |
| Steps.Stages | cluster_16S/pipeline.py:109-121 | nine stages, pairwise distinct |
| Pipeline.Pipeline.StageDir | cluster_16S/pipeline.py:125-127 | the stage directory is in the form `os.path.split` gives directories; that distinct stages get distinct directories is `StageDirSpec` |
| Pipeline.Pipeline.StageDirSpec | cluster_16S/pipeline.py:124-127 | a stage's directory is in split form, and distinct stages have distinct directories |
| Pipeline.NeedsRunSpec | cluster_16S/pipeline.py:449-452 | steps 1-7 run only on an empty directory; steps 8 and 9 also run on a directory of hidden entries only |
| Pipeline.Pipeline.constructor | cluster_16S/pipeline.py:74-105 | stores the configuration, reads the tool paths, and starts with nothing run |
| Pipeline.Pipeline.RunCmd | cluster_16S/pipeline.py:632-642 | the command is appended to the log and its effect is added to the stage directory |
| Pipeline.Pipeline.RunEach | cluster_16S/pipeline.py:323-330 | one command per input, in order, and the directory gains exactly their effects |
| Pipeline.Pipeline.InitializeStep | cluster_16S/pipeline.py:124-128 | the stage directory is `join(work_dir, stage name)`; it is created only when nothing of that name exists |
| Pipeline.Pipeline.CompleteStep | cluster_16S/pipeline.py:131-136 | succeeds exactly when the directory exists and lists something, hidden entries included; otherwise it fails with the no-output error, or with the `listdir` error |
| Pipeline.Pipeline.CopyAndCompressFiles | cluster_16S/pipeline.py:139-165 | fails with the no-fastq error, changing nothing, exactly when nothing matches `*.fastq*`; otherwise it handles the matches in sorted order and adds exactly their destination names |
| Pipeline.Pipeline.CopyEach | cluster_16S/pipeline.py:152-163 | the copy loop adds exactly the destination names of its inputs |
| Pipeline.Pipeline.RemovePrimersWithCutadapt | cluster_16S/pipeline.py:168-207 | fails, changing nothing, exactly when no forward file is found; otherwise one cutadapt call per forward file, and the directory gains their effects |
| Pipeline.Pipeline.PearOnPair | cluster_16S/pipeline.py:269-297 | decompresses the pair, runs PEAR under the prefix and removes the decompressed pair; fails only on a missing file; only the stage directory changes |
| Pipeline.Pipeline.PearAndRemove | cluster_16S/pipeline.py:284-297 | one PEAR call is logged; only the stage directory changes |
| Pipeline.Pipeline.MergeOne | cluster_16S/pipeline.py:268-299 | on success the directory is PEAR's step with `<prefix>.*.fastq` compressed; on failure nothing but the stage directory changed |
| Pipeline.Pipeline.GzipPearOutputs | cluster_16S/pipeline.py:299 | exactly PEAR's `<prefix>.*.fastq` outputs are compressed |
| Pipeline.Pipeline.MergeReadsWithPear | cluster_16S/pipeline.py:261-302 | fails, changing nothing, when no forward file is found; otherwise one PEAR call per forward file in order, and the directory is the fold of the per-file steps; the log only grows |
| Pipeline.Pipeline.FilterReadsWithVsearch | cluster_16S/pipeline.py:305-335 | one vsearch call per `*.assembled.fastq.gz` input, then exactly the `*.assembled.*.fastq` entries are compressed |
| Pipeline.Pipeline.RunAndGzip | cluster_16S/pipeline.py:323-332 | runs the commands in order, then compresses the entries matching the pattern |
| Pipeline.Pipeline.CombineRunFiles | cluster_16S/pipeline.py:338-359 | fails, changing nothing, when the input directory is missing or nothing matches; otherwise it writes exactly one file, named by `get_combined_file_name` of the sorted matches |
| Pipeline.Pipeline.DereplicateReads | cluster_16S/pipeline.py:362-400 | fails, changing nothing, exactly when the input directory is missing; otherwise one call per sorted input, then the `*.fasta` entries are compressed |
| Pipeline.Pipeline.ClusterAndRemove | cluster_16S/pipeline.py:434-443 | one usearch call, then the decompressed input is removed |
| Pipeline.Pipeline.ClusterOne | cluster_16S/pipeline.py:412-443 | decompress, cluster, remove; fails, changing nothing, exactly when the compressed file is missing |
| Pipeline.Pipeline.ClusterOtus | cluster_16S/pipeline.py:403-446 | one usearch call per sorted `*.fasta.gz` input, in order; the directory is the fold of the per-file steps; only the stage directory changes |
| Pipeline.Pipeline.DetectChimeras | cluster_16S/pipeline.py:449-495 | one vsearch call per `*.fasta` input; the directory gains exactly their effects |
| Pipeline.Pipeline.CreateOtuTable | cluster_16S/pipeline.py:498-546 | fails, changing nothing, exactly when no `*rad3.uchime.fasta` file exists; otherwise two calls per merged read file found under `step_03*` |
| Pipeline.Pipeline.StageWork | cluster_16S/pipeline.py:139-546 | a stage body changes only its own directory and only appends to the log |
| Pipeline.Pipeline.PrepareReads | cluster_16S/pipeline.py:139-359 | steps 1-5 change only their own directory and only append to the log |
| Pipeline.Pipeline.BuildOtus | cluster_16S/pipeline.py:362-546 | steps 6-9 change only their own directory and only append to the log |
| Pipeline.Pipeline.RunStage | cluster_16S/pipeline.py:139-165 | a stage returns its directory only when that directory lists something. No other directory loses entries. A stage whose directory already holds output it counts runs no command and changes nothing. A file in place of the directory fails with the not-a-directory error |
| Pipeline.Pipeline.Run | cluster_16S/pipeline.py:109-121 | the stages are called in order: the first with the input directory, each later one with the previous one's directory. A failure stops the run after the failing stage. On success the run returns the nine stage directories, each listing something. When every stage is already complete, nothing changes and no command runs |
| Pipeline.Pipeline.StageDirs | cluster_16S/pipeline.py:109-121 | the nine directories `run` returns, each in split form and pairwise distinct, so no stage writes into another's checkpoint |

## Left out

- Nothing is executed. Tools are not run, and file contents, compression and byte
  copying are not modelled; only the names that files get are.
- `run_cmd` does not check exit codes: `subprocess.run` is called without
  `check=True`. So a tool call never fails here, and `effect` may leave nothing
  behind. Spawning, output capture and its `except` branches are left out.
- Logging, `argparse`/`get_args`, `main` and the printing in `run_cmd` are left out.
- `sys._getframe` stage naming is replaced by the explicit `Stage` value.
- `step_03_merge_forward_reverse_reads_with_vsearch` is left out. `run` never
  calls it.
- The commented-out code is left out: the `usearch` chimera call in step 8 and `step_10`.
- Only the literal glob patterns and `re.sub` patterns the pipeline uses are
  modelled, not general engines.
- Unsorted `glob.glob` results, as in `get_forward_fastq_files` and steps 4, 8
  and 9, are modelled without an order. Only their set of elements is stated.
- Files that tools write outside their stage's directory are left out, as are
  entries a tool removes.
- Directory paths are compared as strings: no normalisation, symlinks or `..`.
- `os.mkdir` with a missing parent directory is left out: the directory is
  always created.
- Each `step_0N` method's common prologue and epilogue are written once, in
  `RunStage`. Its body is dispatched by `StageWork`. `run`'s nine
  straight-line calls are a loop over `Stages()`.
- Pipeline.Pipeline.MergeReadsWithPear: on failure the contract says only that
  the error is the forward-read error or a missing file. It does not say which
  pair was missing.
- Pipeline.Pipeline.ClusterOtus: on failure the contract says only that a file
  was missing, and that only the stage directory changed.
- Pipeline.Pipeline.StageWork: states only the frame (own directory, log
  grows). What each stage does is stated by the stage method it calls.
- Pipeline.Pipeline.RunStage: does not state that a stage whose directory is
  absent or empty runs its body. That is visible in the body, not in the
  contract.
- Text.IntToString: states the digits and the sign, not that the digits
  denote the number.
- Step 9's `otus_fp, *_ = glob(...)` raises `ValueError` on an empty result.
  The model reports it as the missing-OTU-file error, naming the glob.
- Two behaviours of the code that are easy to misread:
  - Steps 1-7 skip their body when the directory holds any entry, hidden
    ones included. Only steps 8 and 9 ignore hidden entries.
  - `get_forward_fastq_files` does not sort its result.
- `complete_step` counts hidden entries. So step 8 or 9 can complete with
  only hidden files, and then run again on the next `run`. That is why
  `Run`'s "nothing changes" clause needs every stage to be `Finished`, which
  uses the stage's own checkpoint test.
