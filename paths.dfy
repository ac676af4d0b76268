/**
 * The POSIX path operations the core relies on, as Python's `posixpath`
 * defines them: `os.path.split`, `os.path.join` with one component, the
 * basename, and the side-file naming rule `dir/name` -> `dir/.name.shark`.
 */
module Paths {

  /** Index just after the last '/' of `p`, or 0 when `p` has none (`p.rfind('/') + 1`). */
  function AfterLastSlash(p: string): (i: nat)
    ensures i <= |p|
    ensures i > 0 ==> p[i - 1] == '/'
    ensures forall k :: i <= k < |p| ==> p[k] != '/'
  {
    if p == [] then 0
    else if p[|p| - 1] == '/' then |p|
    else AfterLastSlash(p[..|p| - 1])
  }

  predicate NoSlash(s: string) {
    forall k :: 0 <= k < |s| ==> s[k] != '/'
  }

  predicate AllSlashes(s: string) {
    forall k :: 0 <= k < |s| ==> s[k] == '/'
  }

  /** `s.rstrip('/')`. */
  function StripTrailingSlashes(s: string): (r: string)
    ensures |r| <= |s| && r == s[..|r|]
    ensures r == [] || r[|r| - 1] != '/'
    ensures forall k :: |r| <= k < |s| ==> s[k] == '/'
  {
    if s != [] && s[|s| - 1] == '/' then StripTrailingSlashes(s[..|s| - 1]) else s
  }

  /**
   * `os.path.split(p)`: the tail is everything after the last '/', the head
   * everything before it, with trailing slashes removed from the head unless
   * the head consists of slashes only.
   */
  function Split(p: string): (string, string) {
    var i := AfterLastSlash(p);
    var head, tail := p[..i], p[i..];
    (if head != [] && !AllSlashes(head) then StripTrailingSlashes(head) else head, tail)
  }

  /** `os.path.join(a, b)` for a single component `b`. */
  function Join(a: string, b: string): string {
    if |b| > 0 && b[0] == '/' then b
    else if a == [] || a[|a| - 1] == '/' then a + b
    else a + "/" + b
  }

  /** The second half of `os.path.split`. */
  function Basename(p: string): string {
    Split(p).1
  }

  /** The hidden side file beside `p` (pyshark/manifest.py, `Manifest.side_file_name`). */
  function SideFileName(p: string): string {
    var (dir, name) := Split(p);
    Join(dir, "." + name + ".shark")
  }

  lemma AfterLastSlashNone(s: string)
    requires NoSlash(s)
    ensures AfterLastSlash(s) == 0
  {
    if s != [] {
      AfterLastSlashNone(s[..|s| - 1]);
    }
  }

  lemma {:induction false} AfterLastSlashAppend(a: string, b: string)
    requires a != [] && a[|a| - 1] == '/'
    requires NoSlash(b)
    ensures AfterLastSlash(a + b) == |a|
    decreases |b|
  {
    if b == [] {
      assert a + b == a;
    } else {
      assert (a + b)[..|a + b| - 1] == a + b[..|b| - 1];
      AfterLastSlashAppend(a, b[..|b| - 1]);
    }
  }

  lemma TailHasNoSlash(p: string)
    ensures NoSlash(Split(p).1)
  {
  }

  /**
   * Splitting a side-file name gives back the original directory and the
   * basename decorated as `.name.shark`: the rewrite keeps the directory and
   * changes only the last component.
   */
  lemma {:induction false} SplitSideFileName(p: string)
    ensures Split(SideFileName(p)) == (Split(p).0, "." + Split(p).1 + ".shark")
  {
    var (dir, name) := Split(p);
    var decorated := "." + name + ".shark";
    TailHasNoSlash(p);
    assert NoSlash(decorated) by {
      forall k | 0 <= k < |decorated| ensures decorated[k] != '/' {
        if 1 <= k < 1 + |name| {
          assert decorated[k] == name[k - 1];
        }
      }
    }
    var i := AfterLastSlash(p);
    if dir == [] {
      AfterLastSlashNone(decorated);
      assert SideFileName(p) == decorated;
    } else if dir[|dir| - 1] == '/' {
      // the head was kept as is, so it consists of slashes only
      assert AllSlashes(dir);
      AfterLastSlashAppend(dir, decorated);
      assert SideFileName(p) == dir + decorated;
      assert (dir + decorated)[..|dir|] == dir;
      assert (dir + decorated)[|dir|..] == decorated;
    } else {
      var joined := dir + "/" + decorated;
      assert SideFileName(p) == joined;
      AfterLastSlashAppend(dir + "/", decorated);
      assert joined[..|dir| + 1] == dir + "/";
      assert joined[|dir| + 1..] == decorated;
      assert !AllSlashes(dir + "/") by {
        assert (dir + "/")[|dir| - 1] == dir[|dir| - 1];
      }
      assert (dir + "/")[..|dir|] == dir;
      assert StripTrailingSlashes(dir + "/") == StripTrailingSlashes(dir);
    }
  }

  lemma SideFileNameExample()
    ensures SideFileName("/data/out.csv") == "/data/.out.csv.shark"
  {
    SplitExample();
    assert Join("/data", ".out.csv.shark") == "/data/.out.csv.shark";
  }

  lemma SplitExample()
    ensures Split("/data/out.csv") == ("/data", "out.csv")
  {
    var p := "/data/out.csv";
    assert p == "/data/" + "out.csv";
    assert NoSlash("out.csv");
    AfterLastSlashAppend("/data/", "out.csv");
    assert p[..6] == "/data/" && p[6..] == "out.csv";
    assert !AllSlashes("/data/") by { assert "/data/"[1] == 'd'; }
    assert StripTrailingSlashes("/data/") == "/data" by {
      assert "/data/"[..5] == "/data";
    }
  }
}
