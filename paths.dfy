/**
 * Node's `path` operations on absolute, normalised paths written as segment sequences,
 * and `util.findup` (src/util.js:43-48) over an abstract set of existing paths.
 */
module Paths {
  import opened Common
  import opened Text

  /** `path.resolve(p, '..')`: the root is its own parent. */
  function Parent(p: Path): (r: Path)
    ensures p != [] ==> |r| == |p| - 1 && r == p[..|p| - 1]
    ensures (r == p) <==> (p == [])
  {
    if p == [] then [] else p[..|p| - 1]
  }

  /** Appending one segment with the normalisation `path.join` applies to "", "." and "..". */
  function Step(dir: Path, segment: string): Path {
    if segment == "" || segment == "." then dir
    else if segment == ".." then Parent(dir)
    else dir + [segment]
  }

  function Descend(dir: Path, segments: seq<string>): Path
    decreases |segments|
  {
    if segments == [] then dir else Descend(Step(dir, segments[0]), segments[1..])
  }

  /** `path.join(dir, rel)`. */
  function Join(dir: Path, rel: string): Path {
    Descend(dir, Split(rel, '/'))
  }

  /** `path.resolve(dir, rel)`: an absolute `rel` starts again from the root. */
  function Resolve(dir: Path, rel: string): Path {
    if |rel| > 0 && rel[0] == '/' then Join([], rel) else Join(dir, rel)
  }

  /** A segment that `Step` appends as it is. */
  predicate PlainSegment(s: string) {
    s != "" && s != "." && s != ".." && '/' !in s
  }

  /** Joining a plain name adds exactly that one segment. */
  lemma JoinPlain(dir: Path, name: string)
    requires PlainSegment(name)
    ensures Join(dir, name) == dir + [name]
    ensures Resolve(dir, name) == dir + [name]
  {
    SplitLength(name, '/');
    CountZero(name, '/');
    SplitJoin(name, '/');
    assert Split(name, '/') == [name];
    assert Descend(dir, [name]) == Descend(Step(dir, name), []);
  }

  /** Resolving two plain names in turn adds exactly those two segments. */
  lemma ResolvePlainPair(dir: Path, a: string, b: string)
    requires PlainSegment(a) && PlainSegment(b)
    ensures Resolve(Resolve(dir, a), b) == dir + [a, b]
  {
    JoinPlain(dir, a);
    JoinPlain(dir + [a], b);
    assert dir + [a] + [b] == dir + [a, b];
  }

  /** The last segment (`path.basename`). */
  function Basename(p: Path): string {
    if p == [] then "" else p[|p| - 1]
  }

  /** Index of the last `c` in `s`. */
  function LastIndexOf(s: string, c: char): (r: Option<nat>)
    ensures r.Some? ==> r.value < |s| && s[r.value] == c && c !in s[r.value + 1..]
    ensures r.None? ==> c !in s
  {
    if s == [] then None
    else if s[|s| - 1] == c then Some(|s| - 1)
    else
      var r := LastIndexOf(s[..|s| - 1], c);
      assert s == s[..|s| - 1] + [s[|s| - 1]];
      if r.Some? then assert s[r.value + 1..] == s[..|s| - 1][r.value + 1..] + [s[|s| - 1]]; r
      else r
  }

  /**
   * `path.extname` of a basename: from its last '.' on, or "" when there is no '.', when the
   * only '.' that counts is the first character, or for "..".
   */
  function ExtName(base: string): string {
    match LastIndexOf(base, '.')
    case None => ""
    case Some(i) => if i == 0 || base == ".." then "" else base[i..]
  }

  /** The length of the longest common prefix of two paths. */
  function CommonPrefix(a: Path, b: Path): (k: nat)
    ensures k <= |a| && k <= |b| && a[..k] == b[..k]
    ensures k < |a| && k < |b| ==> a[k] != b[k]
  {
    if a == [] || b == [] || a[0] != b[0] then 0
    else
      var k := 1 + CommonPrefix(a[1..], b[1..]);
      assert a[..k] == [a[0]] + a[1..][..k - 1];
      assert b[..k] == [b[0]] + b[1..][..k - 1];
      k
  }

  function Ups(n: nat): seq<string> {
    if n == 0 then [] else [".."] + Ups(n - 1)
  }

  /** `segments.join('/')`. */
  function SlashJoin(segments: seq<string>): string {
    if segments == [] then "" else JoinWith(segments, '/')
  }

  /** `path.relative(from, to)`: up to the common ancestor, then down to `to`. */
  function Relative(from: Path, to: Path): string {
    var k := CommonPrefix(from, to);
    SlashJoin(Ups(|from| - k) + to[k..])
  }

  /** A path below `from` is written relative to it as its remaining segments. */
  lemma RelativeBelow(from: Path, rest: Path)
    ensures Relative(from, from + rest) == SlashJoin(rest)
  {
    var k := CommonPrefix(from, from + rest);
    assert k == |from|;
    assert Ups(|from| - k) == [];
    assert (from + rest)[|from|..] == rest;
    assert Ups(|from| - k) + (from + rest)[k..] == rest;
  }

  /** `util.findup(dirpath, filename)`: the nearest of `dir` and its ancestors holding `filename`. */
  function Findup(existing: set<Path>, dir: Path, filename: string): Option<Path>
    decreases |dir|
  {
    var candidate := Join(dir, filename);
    if candidate in existing then Some(candidate)
    else
      var parent := Parent(dir);
      if parent == dir then None else Findup(existing, parent, filename)
  }

  /**
   * Findup returns `filename` joined to the longest prefix of `dir` where it exists, and
   * nothing when it exists under none of them, the root included.
   */
  lemma {:induction false} FindupNearest(existing: set<Path>, dir: Path, filename: string)
    ensures Findup(existing, dir, filename).None? ==>
      forall k :: 0 <= k <= |dir| ==> Join(dir[..k], filename) !in existing
    ensures Findup(existing, dir, filename).Some? ==>
      exists k :: 0 <= k <= |dir| && NearestAt(existing, dir, filename, k)
        && Findup(existing, dir, filename).value == Join(dir[..k], filename)
    decreases |dir|
  {
    var candidate := Join(dir, filename);
    assert dir[..|dir|] == dir;
    if candidate in existing {
      assert NearestAt(existing, dir, filename, |dir|);
    } else if dir != [] {
      var parent := Parent(dir);
      FindupNearest(existing, parent, filename);
      forall k | 0 <= k <= |parent| ensures dir[..k] == parent[..k] { }
      if Findup(existing, parent, filename).Some? {
        var k :| 0 <= k <= |parent| && NearestAt(existing, parent, filename, k)
          && Findup(existing, parent, filename).value == Join(parent[..k], filename);
        assert NearestAt(existing, dir, filename, k);
      }
    }
  }

  /** `dir[..k]` holds `filename`, and no longer prefix of `dir` does. */
  ghost predicate NearestAt(existing: set<Path>, dir: Path, filename: string, k: nat) {
    && k <= |dir|
    && Join(dir[..k], filename) in existing
    && forall k' :: k < k' <= |dir| ==> Join(dir[..k'], filename) !in existing
  }
}
