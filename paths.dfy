/** POSIX path handling behind `exclude`: `os.path.abspath`/`normpath` reduced to a
    list of components, and `os.path.relpath`. The working directory of the process
    is a parameter. */
module Paths {
  import opened Wrappers
  import opened Text

  /** A component that can survive `normpath` in an absolute path. */
  predicate Proper(c: string) {
    c != "" && c != "." && c != ".." && '/' !in c
  }

  predicate AllProper(cs: seq<string>) {
    forall k :: 0 <= k < |cs| ==> Proper(cs[k])
  }

  /** `normpath`'s walk over the pieces of an absolute path: empty pieces and `.`
      vanish, `..` drops the last kept component (and nothing at the root). */
  function Resolve(kept: seq<string>, parts: seq<string>): (r: seq<string>)
    requires AllProper(kept)
    requires forall k :: 0 <= k < |parts| ==> '/' !in parts[k]
    ensures AllProper(r)
    decreases |parts|
  {
    if parts == [] then kept
    else
      var p := parts[0];
      var next :=
        if p == "" || p == "." then kept
        else if p == ".." then (if kept == [] then [] else kept[..|kept| - 1])
        else kept + [p];
      Resolve(next, parts[1..])
  }

  /** `[x for x in abspath(p).split('/') if x]` with `cwd` as the working directory. */
  function Components(cwd: string, p: string): (r: seq<string>)
    requires StartsWith(cwd, "/")
    ensures AllProper(r)
  {
    var full := if StartsWith(p, "/") then p else cwd + "/" + p;
    SplitOnPiecesFree(full, '/');
    Resolve([], SplitOn(full, '/'))
  }

  /** `os.path.commonprefix` of two component lists: the length of their longest
      common prefix. */
  function CommonPrefixLength(a: seq<string>, b: seq<string>): (n: nat)
    ensures n <= |a| && n <= |b| && a[..n] == b[..n]
    ensures n < |a| && n < |b| ==> a[n] != b[n]
  {
    if a == [] || b == [] || a[0] != b[0] then 0
    else
      var n := 1 + CommonPrefixLength(a[1..], b[1..]);
      assert a[..n] == [a[0]] + a[1..][..n - 1];
      assert b[..n] == [b[0]] + b[1..][..n - 1];
      n
  }

  /** `[x] * n`. */
  function Repeat(x: string, n: nat): (r: seq<string>)
    ensures |r| == n && forall k :: 0 <= k < n ==> r[k] == x
  {
    if n == 0 then [] else [x] + Repeat(x, n - 1)
  }

  /** `os.path.relpath(path, start)`; `None` where it raises `ValueError` (an empty
      path). */
  function RelPath(cwd: string, path: string, start: string): Option<string>
    requires StartsWith(cwd, "/")
  {
    if path == "" then None
    else
      var s := Components(cwd, start);
      var p := Components(cwd, path);
      var i := CommonPrefixLength(s, p);
      var rel := Repeat("..", |s| - i) + p[i..];
      Some(if rel == [] then "." else JoinWith(rel, '/'))
  }

  /** `contains(directory, entry)` of `exclude`: the path from `directory` to
      `entry` does not begin with a step up. */
  function Contains(cwd: string, directory: string, entry: string): Option<bool>
    requires StartsWith(cwd, "/")
  {
    match RelPath(cwd, entry, directory)
    case None => None
    case Some(rel) => Some(SplitOn(rel, '/')[0] != "..")
  }

  predicate IsPrefix(a: seq<string>, b: seq<string>) {
    |a| <= |b| && b[..|a|] == a
  }

  /** On normalised absolute paths, containment is component-wise prefix. */
  lemma ContainsIffPrefix(cwd: string, directory: string, entry: string)
    requires StartsWith(cwd, "/")
    requires entry != ""
    ensures Contains(cwd, directory, entry) == Some(IsPrefix(Components(cwd, directory), Components(cwd, entry)))
  {
    var s := Components(cwd, directory);
    var p := Components(cwd, entry);
    var i := CommonPrefixLength(s, p);
    var rel := Repeat("..", |s| - i) + p[i..];
    var text := if rel == [] then "." else JoinWith(rel, '/');
    assert RelPath(cwd, entry, directory) == Some(text);
    RelFirst(s, p, i, rel);
    PrefixIffCommon(s, p);
  }

  /** The first step of the relative path is `..` exactly when the start has
      components beyond the common prefix. */
  lemma RelFirst(s: seq<string>, p: seq<string>, i: nat, rel: seq<string>)
    requires AllProper(p) && i <= |s| && i <= |p|
    requires rel == Repeat("..", |s| - i) + p[i..]
    ensures (SplitOn(if rel == [] then "." else JoinWith(rel, '/'), '/')[0] == "..") <==> |s| > i
  {
    if rel == [] {
      SplitOnNoSep(".", '/');
    } else {
      assert forall k :: 0 <= k < |rel| ==> '/' !in rel[k];
      SplitJoin(rel, '/');
      if |s| > i {
        assert rel[0] == "..";
      } else {
        assert rel[0] == p[i];
      }
    }
  }

  /** `s` is a prefix of `p` exactly when their common prefix is all of `s`. */
  lemma PrefixIffCommon(s: seq<string>, p: seq<string>)
    ensures IsPrefix(s, p) <==> CommonPrefixLength(s, p) == |s|
  {
    assert IsPrefix(s, p) ==> forall k :: 0 <= k < |s| ==> s[k] == p[k];
  }
}
