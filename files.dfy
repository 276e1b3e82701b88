/**
  The file system as the pipeline sees it: a map from a directory's path to the
  set of names it lists. A sub-directory is listed in its parent under its own
  name. Directory paths are taken as written, without normalisation, so `a` and
  `a/` are different keys; every directory the pipeline creates is in the form
  `os.path.split` produces, and lookups of its files agree with it.
  File contents are not modelled.
 */
module Files {
  import opened Text
  import opened Paths
  import opened Naming
  import opened Errors

  /** The names among `entries` that `p` matches */
  function MatchingNames(entries: set<string>, p: Pattern): set<string> {
    set n | n in entries && Matches(p, n)
  }

  /** The directory `glob` lists for `os.path.join(d, pattern)`: the head of that path's split */
  function GlobDir(d: string, p: Pattern): string {
    Dirname(JoinPath(d, PatternText(p)))
  }

  /** For a directory in split form, which every stage directory is, glob lists that directory */
  lemma GlobDirOfCanonical(d: string, p: Pattern)
    requires CanonicalDir(d)
    requires '/' !in PatternText(p)
    ensures GlobDir(d, p) == d
  {
    DirnameOfJoin(d, PatternText(p));
  }

  lemma {:induction false} GlobDirOfPlain(d: string, p: Pattern)
    requires CanonicalDir(d)
    requires !p.MergedOutputs?
    ensures GlobDir(d, p) == d
  {
    PatternPlain(p);
    GlobDirOfCanonical(d, p);
  }

  /** The paths glob yields for the names it matched: `os.path.join(dir, name)` */
  function InDir(dir: string, names: seq<string>): (paths: seq<string>)
    ensures |paths| == |names|
    ensures forall i :: 0 <= i < |names| ==> paths[i] == JoinPath(dir, names[i])
  {
    seq(|names|, i requires 0 <= i < |names| => JoinPath(dir, names[i]))
  }

  /** The paths glob yields for a set of matched names */
  function GlobPaths(dir: string, names: set<string>): set<string> {
    set n | n in names :: JoinPath(dir, n)
  }

  /** The elements of `paths` that are in `keep`, in their order */
  function Among(paths: seq<string>, keep: set<string>): (r: seq<string>)
    ensures Elements(r) == Elements(paths) * keep
    decreases |paths|
  {
    if paths == [] then []
    else
      var rest := Among(paths[1..], keep);
      assert Elements(paths) == {paths[0]} + Elements(paths[1..]) by {
        assert paths == [paths[0]] + paths[1..];
      }
      if paths[0] in keep then
        assert Elements([paths[0]] + rest) == {paths[0]} + Elements(rest);
        [paths[0]] + rest
      else rest
  }

  lemma InDirElements(dir: string, names: seq<string>)
    ensures Elements(InDir(dir, names)) == GlobPaths(dir, Elements(names))
  {
    var paths := InDir(dir, names);
    forall q | q in GlobPaths(dir, Elements(names)) ensures q in Elements(paths) {
      var n :| n in Elements(names) && q == JoinPath(dir, n);
      var i :| 0 <= i < |names| && names[i] == n;
      assert paths[i] == q;
    }
  }

  /** The names a directory holds after compressing those of its files that `p` matches */
  function GzipMatching(entries: set<string>, p: Pattern): set<string> {
    GzipSet(entries, MatchingNames(entries, p))
  }

  /** The names a directory holds after `gzip_files` has compressed `names` in order:
      each `n` is written as `n.gz` and then removed */
  function GzipFold(entries: set<string>, names: seq<string>): set<string>
    decreases |names|
  {
    if names == [] then entries
    else
      var last := names[|names| - 1];
      (GzipFold(entries, names[..|names| - 1]) + {last + ".gz"}) - {last}
  }

  /** The compressed names */
  function GzipNames(names: set<string>): set<string> {
    set n | n in names :: n + ".gz"
  }

  /** The names a directory holds after compressing its files `names`, none of them compressed */
  function GzipSet(entries: set<string>, names: set<string>): set<string> {
    (entries - names) + GzipNames(names)
  }

  lemma EndsWithGz(n: string)
    ensures EndsWith(n + ".gz", ".gz")
  {
    assert (n + ".gz")[|n|..] == ".gz";
  }

  /** When none of the names is compressed already, the order of compression does not
      matter: the names are replaced by their compressed versions */
  lemma {:induction false} GzipFoldSet(entries: set<string>, names: seq<string>)
    requires forall n :: n in names ==> !EndsWith(n, ".gz")
    ensures GzipFold(entries, names) == GzipSet(entries, Elements(names))
    decreases |names|
  {
    if names != [] {
      var init, last := names[..|names| - 1], names[|names| - 1];
      assert forall n :: n in init ==> n in names;
      GzipFoldSet(entries, init);
      assert Elements(names) == Elements(init) + {last} by {
        assert names == init + [last];
      }
      assert GzipNames(Elements(names)) == GzipNames(Elements(init)) + {last + ".gz"};
      assert last !in GzipNames(Elements(init)) by {
        forall n | n in init ensures last != n + ".gz" {
          EndsWithGz(n);
        }
      }
      assert last != last + ".gz";
    }
  }

  /** The names `ungzip_files` writes: each input's file name without its last three characters */
  function UngzippedNames(fps: seq<string>): set<string>
    decreases |fps|
  {
    if fps == [] then {}
    else UngzippedNames(fps[..|fps| - 1]) + {DropLast(Basename(fps[|fps| - 1]), 3)}
  }

  lemma UngzippedNamesPair(a: string, b: string)
    ensures UngzippedNames([a, b]) == {DropLast(Basename(a), 3), DropLast(Basename(b), 3)}
  {
    assert UngzippedNames([a]) == {DropLast(Basename(a), 3)} by {
      assert [a][..0] == [];
    }
    assert UngzippedNames([a, b]) == UngzippedNames([a]) + {DropLast(Basename(b), 3)} by {
      assert [a, b][..1] == [a];
    }
  }

  class FileSystem {
    var dirs: map<string, set<string>>

    constructor (dirs: map<string, set<string>>)
      ensures this.dirs == dirs
    {
      this.dirs := dirs;
    }

    /** What `d` lists; nothing when it does not exist */
    function Entries(d: string): set<string>
      reads this
    {
      if d in dirs then dirs[d] else {}
    }

    /** A file exists when the directory in its split form lists its name */
    predicate Exists(p: string)
      reads this
    {
      Basename(p) in Entries(Dirname(p))
    }

    /** The first `n` of `fps` exist */
    predicate AllExist(fps: seq<string>, n: nat)
      requires n <= |fps|
      reads this
    {
      forall k :: 0 <= k < n ==> Exists(fps[k])
    }

    lemma AllExistPair(a: string, b: string)
      requires Exists(a) && Exists(b)
      ensures AllExist([a, b], 2)
    {
      var fps := [a, b];
      forall k | 0 <= k < 2 ensures Exists(fps[k]) {
        if k == 0 { assert fps[k] == a; } else { assert fps[k] == b; }
      }
    }

    /** `os.path.exists(p)`: a directory, or a file its directory lists */
    predicate PathExists(p: string)
      reads this
    {
      p in dirs || Exists(p)
    }

    /** `os.listdir(d)`, as a set: no order is claimed */
    function ListDir(d: string): (r: Result<set<string>>)
      reads this
      ensures r.Success? <==> d in dirs
      ensures r.Success? ==> r.value == Entries(d)
      ensures r.Failure? ==> r.error == if Exists(d) then NotADirectory(d) else NotFound(d)
    {
      if d in dirs then Success(dirs[d])
      else if Exists(d) then Failure(NotADirectory(d))
      else Failure(NotFound(d))
    }

    /** The paths `glob.glob(os.path.join(d, pattern))` returns, as a set */
    function Found(d: string, p: Pattern): set<string>
      reads this
    {
      GlobPaths(GlobDir(d, p), MatchingNames(Entries(GlobDir(d, p)), p))
    }

    /** `glob.glob(os.path.join(d, pattern))`: the names it matches, each once, in an order
        the model leaves open; the paths are `InDir(GlobDir(d, p), names)` */
    method Glob(d: string, p: Pattern) returns (names: seq<string>)
      ensures Distinct(names)
      ensures Elements(names) == MatchingNames(Entries(GlobDir(d, p)), p)
    {
      var rest := MatchingNames(Entries(GlobDir(d, p)), p);
      names := [];
      while rest != {}
        invariant Distinct(names)
        invariant Elements(names) !! rest
        invariant Elements(names) + rest == MatchingNames(Entries(GlobDir(d, p)), p)
        decreases rest
      {
        var n :| n in rest;
        names := names + [n];
        rest := rest - {n};
      }
    }

    /** The paths `glob.glob(os.path.join(sd, pattern))` returns for the directories `sd` of `subdirs` */
    function FoundIn(subdirs: set<string>, p: Pattern): set<string>
      reads this
    {
      set sd, q | sd in subdirs && q in Found(sd, p) :: q
    }

    lemma FoundInAdd(subdirs: set<string>, sd: string, p: Pattern)
      ensures FoundIn(subdirs + {sd}, p) == FoundIn(subdirs, p) + Found(sd, p)
    {
    }

    lemma FoundInStep(subdirs: seq<string>, i: nat, p: Pattern, paths: seq<string>, more: seq<string>)
      requires i < |subdirs|
      requires Elements(paths) == FoundIn(Elements(subdirs[..i]), p)
      requires Elements(more) == Found(subdirs[i], p)
      ensures Elements(paths + more) == FoundIn(Elements(subdirs[..i + 1]), p)
    {
      var seen := Elements(subdirs[..i]);
      calc {
        Elements(paths + more);
      == { ElementsAppend(paths, more); }
        FoundIn(seen, p) + Found(subdirs[i], p);
      == { FoundInAdd(seen, subdirs[i], p); }
        FoundIn(seen + {subdirs[i]}, p);
      == { ElementsSnoc(subdirs, i); }
        FoundIn(Elements(subdirs[..i + 1]), p);
      }
    }

    /** The matches of `pattern` in each directory of `subdirs` in turn, concatenated */
    method GlobEach(subdirs: seq<string>, p: Pattern) returns (paths: seq<string>)
      ensures Elements(paths) == FoundIn(Elements(subdirs), p)
    {
      paths := [];
      assert subdirs[..0] == [];
      for i := 0 to |subdirs|
        invariant Elements(paths) == FoundIn(Elements(subdirs[..i]), p)
      {
        var more := GlobList(subdirs[i], p);
        FoundInStep(subdirs, i, p, paths, more);
        paths := paths + more;
      }
      assert subdirs[..|subdirs|] == subdirs;
    }

    /** `glob.glob(os.path.join(d, pattern))`, as paths, in an order the model leaves open */
    method GlobList(d: string, p: Pattern) returns (paths: seq<string>)
      ensures Elements(paths) == Found(d, p)
    {
      var names := Glob(d, p);
      paths := InDir(GlobDir(d, p), names);
      InDirElements(GlobDir(d, p), names);
    }

    /** `sorted(glob.glob(os.path.join(d, pattern)))` */
    method SortedGlob(d: string, p: Pattern) returns (paths: seq<string>)
      ensures StrictlySorted(paths)
      ensures Elements(paths) == Found(d, p)
    {
      var unsorted := GlobList(d, p);
      paths := SortedDistinct(unsorted);
    }

    /** `glob.glob(os.path.join(d, pattern))` where the pattern is followed by a further
        component: only the matches that are directories lead anywhere */
    method GlobDirs(d: string, p: Pattern) returns (dirPaths: seq<string>)
      ensures Elements(dirPaths) == Found(d, p) * dirs.Keys
    {
      var paths := GlobList(d, p);
      dirPaths := Among(paths, dirs.Keys);
    }

    /** Writing every file of `names` into the existing directory `d` */
    method WriteAll(d: string, names: set<string>)
      requires d in dirs
      modifies this
      ensures dirs == old(dirs)[d := old(Entries(d)) + names]
    {
      dirs := dirs[d := Entries(d) + names];
    }

    /** `os.mkdir(d)` for a `d` that does not exist: `d` is empty and its parent lists it */
    method MakeDir(d: string)
      requires d !in dirs
      modifies this
      ensures dirs == WithDir(old(dirs), d)
    {
      dirs := WithDir(dirs, d);
    }

    /** Writing file `n` into the existing directory `d` (creating or overwriting it) */
    method Write(d: string, n: string)
      requires d in dirs
      modifies this
      ensures dirs == old(dirs)[d := old(Entries(d)) + {n}]
    {
      dirs := dirs[d := Entries(d) + {n}];
    }

    /** `os.remove(os.path.join(d, n))`: the name leaves the directory; a missing file fails */
    method Remove(d: string, n: string) returns (r: Result<string>)
      modifies this
      ensures r.Success? <==> n in old(Entries(d))
      ensures dirs.Keys == old(dirs.Keys)
      ensures r.Success? ==> dirs == old(dirs)[d := old(Entries(d)) - {n}]
      ensures r.Failure? ==> r.error == NotFound(JoinPath(d, n)) && dirs == old(dirs)
    {
      if n in Entries(d) {
        dirs := dirs[d := Entries(d) - {n}];
        r := Success(n);
      } else {
        r := Failure(NotFound(JoinPath(d, n)));
      }
    }

    /** `gzip_files` on the files `names` of directory `d` that glob has just found there */
    method GzipFiles(d: string, names: seq<string>)
      requires d in dirs
      modifies this
      ensures dirs == old(dirs)[d := GzipFold(old(Entries(d)), names)]
    {
      for i := 0 to |names|
        invariant dirs == old(dirs)[d := GzipFold(old(Entries(d)), names[..i])]
      {
        assert names[..i + 1][..i] == names[..i];
        Write(d, names[i] + ".gz");
        dirs := dirs[d := Entries(d) - {names[i]}];
      }
      assert names[..|names|] == names;
    }

    /** `gzip_files(glob.glob(os.path.join(d, pattern)))` for a pattern that never matches a
        compressed name: every match is replaced by its compressed version */
    method GzipGlob(d: string, p: Pattern)
      requires GlobDir(d, p) in dirs
      requires p.MergedOutputs? || p == AssembledStarFastq || p == Fasta
      modifies this
      ensures dirs == old(dirs)[GlobDir(d, p) := GzipMatching(old(Entries(GlobDir(d, p))), p)]
    {
      var names := Glob(d, p);
      forall n | n in names ensures !EndsWith(n, ".gz") {
        assert n in Elements(names);
        GzipTargetsAreUncompressed(p, n);
      }
      GzipFoldSet(Entries(GlobDir(d, p)), names);
      GzipFiles(GlobDir(d, p), names);
    }

    /** One file of `ungzip_files`: `fp` is decompressed into `targetDir` under its name
        without `.gz`; opening a missing file fails */
    method UngzipFile(fp: string, targetDir: string) returns (r: Result<string>)
      requires targetDir in dirs
      modifies this
      ensures r.Success? <==> old(Exists(fp))
      ensures r.Success? ==> r.value == UngzippedPath(fp, targetDir)
      ensures r.Success? ==> dirs == old(dirs)[targetDir := old(Entries(targetDir)) + {DropLast(Basename(fp), 3)}]
      ensures r.Failure? ==> r.error == NotFound(fp) && dirs == old(dirs)
    {
      if !Exists(fp) {
        return Failure(NotFound(fp));
      }
      Write(targetDir, DropLast(Basename(fp), 3));
      r := Success(UngzippedPath(fp, targetDir));
    }

    /** `ungzip_files(*fps, target_dir=targetDir)`: each file is decompressed into
        `targetDir` under its name without `.gz`; opening a missing file stops the loop */
    method UngzipFiles(fps: seq<string>, targetDir: string) returns (r: Result<seq<string>>)
      requires targetDir in dirs
      modifies this
      ensures old(AllExist(fps, |fps|)) ==> r.Success?
      ensures r.Success? ==> |r.value| == |fps|
      ensures r.Success? ==> forall i :: 0 <= i < |fps| ==> r.value[i] == UngzippedPath(fps[i], targetDir)
      ensures r.Success? ==> dirs == old(dirs)[targetDir := old(Entries(targetDir)) + UngzippedNames(fps)]
      ensures r.Failure? ==> exists i :: 0 <= i < |fps| && r.error == NotFound(fps[i]) && !old(Exists(fps[i]))
      ensures OnlyChanged(old(dirs), dirs, targetDir)
      ensures old(Entries(targetDir)) <= Entries(targetDir)
    {
      ghost var d0 := dirs;
      assert fps[..0] == [];
      assert d0[targetDir] + UngzippedNames(fps[..0]) == d0[targetDir];
      assert d0[targetDir := d0[targetDir]] == d0;
      for i := 0 to |fps|
        invariant dirs == d0[targetDir := d0[targetDir] + UngzippedNames(fps[..i])]
      {
        ghost var grown := d0[targetDir] + UngzippedNames(fps[..i]);
        assert Entries(targetDir) == grown;
        var p := UngzipFile(fps[i], targetDir);
        if p.Failure? {
          GrownKeepsMissing(d0, targetDir, UngzippedNames(fps[..i]), fps[i]);
          assert !old(Exists(fps[i]));
          UpdateOnlyChanges(d0, targetDir, grown);
          return Failure(p.error);
        }
        assert dirs == d0[targetDir := grown][targetDir := grown + {DropLast(Basename(fps[i]), 3)}];
        UngzippedNamesStep(fps, i);
        assert grown + {DropLast(Basename(fps[i]), 3)} == d0[targetDir] + UngzippedNames(fps[..i + 1]);
        UpdateTwice(d0, targetDir, grown, d0[targetDir] + UngzippedNames(fps[..i + 1]));
      }
      assert fps[..|fps|] == fps;
      UpdateOnlyChanges(d0, targetDir, d0[targetDir] + UngzippedNames(fps));
      r := Success(seq(|fps|, k requires 0 <= k < |fps| => UngzippedPath(fps[k], targetDir)));
    }
  }

  lemma UngzippedNamesStep(fps: seq<string>, i: nat)
    requires i < |fps|
    ensures UngzippedNames(fps[..i + 1]) == UngzippedNames(fps[..i]) + {DropLast(Basename(fps[i]), 3)}
  {
    assert fps[..i + 1][..i] == fps[..i];
  }

  /** A file missing after `d` has only gained names was missing before */
  lemma GrownKeepsMissing(m: map<string, set<string>>, d: string, x: set<string>, fp: string)
    requires d in m
    requires Basename(fp) !in (if Dirname(fp) in m[d := m[d] + x] then m[d := m[d] + x][Dirname(fp)] else {})
    ensures Basename(fp) !in (if Dirname(fp) in m then m[Dirname(fp)] else {})
  {
  }

  /** Every directory but `d` lists what it listed before, and no directory appears or vanishes */
  predicate OnlyChanged(before: map<string, set<string>>, after: map<string, set<string>>, d: string) {
    after.Keys == before.Keys && forall e :: e in before && e != d ==> after[e] == before[e]
  }

  /** Updating a directory twice leaves only the second update */
  lemma UpdateTwice(m: map<string, set<string>>, d: string, x: set<string>, y: set<string>)
    ensures m[d := x][d := y] == m[d := y]
  {
  }

  lemma UpdateOnlyChanges(m: map<string, set<string>>, d: string, x: set<string>)
    requires d in m
    ensures OnlyChanged(m, m[d := x], d)
  {
  }

  lemma OnlyChangedTrans(a: map<string, set<string>>, b: map<string, set<string>>, c: map<string, set<string>>, d: string)
    requires OnlyChanged(a, b, d) && OnlyChanged(b, c, d)
    ensures OnlyChanged(a, c, d)
  {
  }

  /** No directory vanished, and every directory but `d` lists at least what it listed */
  predicate Grew(before: map<string, set<string>>, after: map<string, set<string>>, d: string) {
    before.Keys <= after.Keys && forall e :: e in before && e != d ==> before[e] <= after[e]
  }

  lemma OnlyChangedGrew(before: map<string, set<string>>, after: map<string, set<string>>, d: string)
    requires OnlyChanged(before, after, d)
    ensures Grew(before, after, d)
  {
  }

  lemma GrewTrans(a: map<string, set<string>>, b: map<string, set<string>>, c: map<string, set<string>>, d: string)
    requires Grew(a, b, d) && Grew(b, c, d)
    ensures Grew(a, c, d)
  {
  }

  /** Every directory of `ds` exists and lists something */
  predicate AllNonEmpty(dirs: map<string, set<string>>, ds: seq<string>) {
    forall j :: 0 <= j < |ds| ==> ds[j] in dirs && dirs[ds[j]] != {}
  }

  /** Directories other than `d` that listed something still do */
  lemma GrewKeepsNonEmpty(before: map<string, set<string>>, after: map<string, set<string>>, d: string, ds: seq<string>)
    requires Grew(before, after, d) && d !in ds && AllNonEmpty(before, ds)
    ensures AllNonEmpty(after, ds)
  {
    forall j | 0 <= j < |ds|
      ensures ds[j] in after && after[ds[j]] != {}
    {
      assert ds[j] != d;
      assert before[ds[j]] <= after[ds[j]];
    }
  }

  lemma AllNonEmptySnoc(dirs: map<string, set<string>>, ds: seq<string>, d: string)
    requires AllNonEmpty(dirs, ds) && d in dirs && dirs[d] != {}
    ensures AllNonEmpty(dirs, ds + [d])
  {
  }

  /** The directory map after `os.mkdir(d)`: `d` is new and empty; its parent, when the
      map holds it, lists `d`'s name */
  function WithDir(m: map<string, set<string>>, d: string): (m': map<string, set<string>>)
    ensures d in m' && m'[d] == {}
    ensures m'.Keys == m.Keys + {d}
    ensures forall e :: e in m && e != d && e != Dirname(d) ==> m'[e] == m[e]
    ensures forall e :: e in m && e != d ==> m[e] <= m'[e]
  {
    var parent := Dirname(d);
    var m1 := m[d := {}];
    if parent in m && parent != d then m1[parent := m[parent] + {Basename(d)}] else m1
  }
}
