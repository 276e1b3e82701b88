/**
  POSIX path arithmetic as the pipeline uses it through `os.path`:
  `split` (and its halves `dirname` and `basename`) and two-argument `join`.
  Paths are plain strings; nothing here looks at a file system.
 */
module Paths {

  /** Index just past the last '/', or 0 when there is none: where the final component starts */
  function TailStart(p: string): (k: nat)
    ensures k <= |p|
    ensures k > 0 ==> p[k - 1] == '/'
    ensures '/' !in p[k..]
    decreases |p|
  {
    if p == [] then 0
    else if p[|p| - 1] == '/' then |p|
    else
      var k := TailStart(p[..|p| - 1]);
      assert p[k..] == p[..|p| - 1][k..] + [p[|p| - 1]];
      k
  }

  predicate AllSlashes(h: string) {
    forall i :: 0 <= i < |h| ==> h[i] == '/'
  }

  /** `h.rstrip('/')` */
  function RStripSlashes(h: string): (r: string)
    ensures r <= h
    ensures r == [] || r[|r| - 1] != '/'
    ensures !AllSlashes(h) ==> r != []
    decreases |h|
  {
    if h != [] && h[|h| - 1] == '/' then
      var r := RStripSlashes(h[..|h| - 1]);
      assert !AllSlashes(h) ==> !AllSlashes(h[..|h| - 1]);
      r
    else h
  }

  /** `os.path.basename(p)`: the text after the last '/' */
  function Basename(p: string): (r: string)
    ensures '/' !in r
    ensures |r| <= |p| && r == p[|p| - |r|..]
  {
    p[TailStart(p)..]
  }

  /** `os.path.split(p)[0]` (also `os.path.dirname(p)`): the text before the last '/',
      with trailing slashes removed unless it consists of slashes only */
  function Dirname(p: string): string {
    var head := p[..TailStart(p)];
    if head != [] && !AllSlashes(head) then RStripSlashes(head) else head
  }

  /** `os.path.join(a, b)` */
  function JoinPath(a: string, b: string): string {
    if b != [] && b[0] == '/' then b
    else if a == [] || a[|a| - 1] == '/' then a + b
    else a + "/" + b
  }

  /** The forms `Dirname` produces: empty, all slashes, or not ending in a slash */
  predicate CanonicalDir(d: string) {
    d == [] || AllSlashes(d) || d[|d| - 1] != '/'
  }

  /** A path that `os.path.join(*os.path.split(p))` gives back unchanged */
  predicate CanonicalPath(p: string) {
    JoinPath(Dirname(p), Basename(p)) == p
  }

  lemma DirnameCanonical(p: string)
    ensures CanonicalDir(Dirname(p))
  {
  }

  lemma {:induction false} TailStartAfterSeparator(x: string, n: string)
    requires '/' !in n
    requires x == [] || x[|x| - 1] == '/'
    ensures TailStart(x + n) == |x|
    decreases |n|
  {
    if n != [] {
      assert (x + n)[..|x + n| - 1] == x + n[..|n| - 1];
      TailStartAfterSeparator(x, n[..|n| - 1]);
    } else {
      assert x + n == x;
    }
  }

  /** The final component of `join(d, n)` is `n` */
  lemma BasenameOfJoin(d: string, n: string)
    requires '/' !in n
    ensures Basename(JoinPath(d, n)) == n
  {
    if d == [] || d[|d| - 1] == '/' {
      TailStartAfterSeparator(d, n);
    } else {
      assert d + "/" + n == (d + "/") + n;
      TailStartAfterSeparator(d + "/", n);
    }
  }

  /** `split(join(d, n)) == (d, n)` when `d` is in the form `split` produces */
  lemma DirnameOfJoin(d: string, n: string)
    requires '/' !in n
    requires CanonicalDir(d)
    ensures Dirname(JoinPath(d, n)) == d
    ensures Basename(JoinPath(d, n)) == n
  {
    BasenameOfJoin(d, n);
    var p := JoinPath(d, n);
    if d == [] {
      TailStartAfterSeparator(d, n);
    } else if d[|d| - 1] == '/' {
      TailStartAfterSeparator(d, n);
      assert p[..TailStart(p)] == d;
    } else {
      assert p == (d + "/") + n;
      TailStartAfterSeparator(d + "/", n);
      var head := p[..TailStart(p)];
      assert head == d + "/";
      assert !AllSlashes(head) by { assert head[|d| - 1] != '/'; }
      assert head[..|head| - 1] == d;
      assert RStripSlashes(head) == RStripSlashes(d) == d;
    }
  }

  /** Joining a name that does not end in '/' gives a path in the form `split` produces
      for directories */
  lemma JoinNameIsCanonicalDir(d: string, n: string)
    requires n != [] && n[|n| - 1] != '/'
    ensures CanonicalDir(JoinPath(d, n))
  {
    var p := JoinPath(d, n);
    assert p[|p| - 1] == n[|n| - 1];
  }

  /** Appending text without a '/' to a path extends its final component */
  lemma BasenameAppend(p: string, x: string)
    requires '/' !in x
    ensures Basename(p + x) == Basename(p) + x
  {
    var k := TailStart(p);
    var tail := p[k..] + x;
    assert '/' !in tail;
    assert p + x == p[..k] + tail;
    TailStartAfterSeparator(p[..k], tail);
    assert (p + x)[k..] == tail;
  }

  /** Appending to a joined relative name is joining the longer name */
  lemma JoinPathAppend(d: string, a: string, b: string)
    requires a + b != [] && (a + b)[0] != '/'
    ensures JoinPath(d, a) + b == JoinPath(d, a + b)
  {
    if a == [] {
      assert a + b == b;
    } else {
      assert (a + b)[0] == a[0];
      if d == [] || d[|d| - 1] == '/' {
        assert JoinPath(d, a) == d + a;
        assert JoinPath(d, a + b) == d + (a + b);
      } else {
        assert JoinPath(d, a) == d + "/" + a;
        assert JoinPath(d, a + b) == d + "/" + (a + b);
      }
    }
  }

  /** Distinct relative names give distinct paths in one directory */
  lemma JoinPathCancel(d: string, n1: string, n2: string)
    requires n1 != [] && n1[0] != '/' && n2 != [] && n2[0] != '/'
    requires JoinPath(d, n1) == JoinPath(d, n2)
    ensures n1 == n2
  {
    var x := if d == [] || d[|d| - 1] == '/' then d else d + "/";
    assert JoinPath(d, n1) == x + n1 && JoinPath(d, n2) == x + n2;
    assert n1 == (x + n1)[|x|..];
  }

  /** Distinct names give distinct paths in one directory */
  lemma JoinPathInjective(d: string, n1: string, n2: string)
    requires '/' !in n1 && '/' !in n2
    requires JoinPath(d, n1) == JoinPath(d, n2)
    ensures n1 == n2
  {
    BasenameOfJoin(d, n1);
    BasenameOfJoin(d, n2);
  }

  /** A path built by `join` from a directory in split form splits back to it */
  lemma JoinIsCanonical(d: string, n: string)
    requires '/' !in n
    requires CanonicalDir(d)
    ensures CanonicalPath(JoinPath(d, n))
  {
    DirnameOfJoin(d, n);
  }
}
