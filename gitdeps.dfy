/**
 * The per-dependency rules of `run` in src/npm-gitdeps.js: `gatherMetadata` (31-47), the
 * `checkUpdates` decision (48-55), the record `getArchive` builds (56-66), the gunzip choice of
 * `untar` (71-73), `flatten` (85-91), `storeMetadata` (92-99) and `report` (100-103), each as
 * a function of the disk; the stages that change the disk are folds over the dependencies in
 * order, which the methods of the Pipeline module follow.
 */
module Gitdeps {
  import opened Common
  import opened Text
  import opened Semver
  import opened Paths
  import opened GitRefs
  import opened VersionMatch
  import opened Host
  import opened Util

  /** A dependency after `gatherMetadata`. */
  datatype Dep = Dep(repo: string, treeish: string, name: string, dest: Path)

  /** A dependency after the `getArchive` stage: `treeish` is the resolved one. */
  datatype Fetched = Fetched(repo: string, name: string, dest: Path, treeish: string, tarball: Path)

  /** The metadata file in each destination. */
  const MetaFile: string := ".npm-git-clone"

  /** `repo.split('/').pop().trim().replace(/\.git$/, '')`. */
  function DepName(key: string): string {
    RemoveSuffix(Trim(LastField(key, '/')), ".git")
  }

  /** The name is the trimmed last segment of the key, so it never holds a '/'. */
  lemma DepNameSpec(key: string)
    ensures '/' !in DepName(key)
    ensures '/' !in key ==> DepName(key) == RemoveSuffix(Trim(key), ".git")
  {
    var field := LastField(key, '/');
    LastFieldSpec(key, '/');
    TrimWithout(field, '/');
    RemoveSuffixWithout(Trim(field), ".git", '/');
  }

  /** A key with exactly one '/' is shorthand for a GitHub repository. */
  function ExpandRepo(key: string): string {
    if |Split(key, '/')| == 2 then "git://github.com/" + key + ".git" else key
  }

  /** The URL of the shorthand expansion contains "github", so the GitHub API serves it. */
  lemma ExpandedIsGithub(key: string)
    ensures BackendFor("git://github.com/" + key + ".git") == GithubApi
  {
    var s := "git://github.com/" + key + ".git";
    assert s[6..12] == "github";
    assert OccursAt(s, "github", 6);
  }

  /**
   * A key with exactly one '/' becomes `git://github.com/<key>.git`, which the GitHub backend
   * serves and whose short name is the key again; every other key is kept as it is.
   */
  lemma ExpandRepoSpec(key: string)
    ensures Count(key, '/') == 1 ==>
      && ExpandRepo(key) == "git://github.com/" + key + ".git"
      && GithubShortName(ExpandRepo(key)) == key
      && BackendFor(ExpandRepo(key)) == GithubApi
    ensures Count(key, '/') != 1 ==> ExpandRepo(key) == key
  {
    SplitLength(key, '/');
    if Count(key, '/') == 1 {
      ExpandedShortName(key);
      ExpandedIsGithub(key);
    }
  }

  /** `path.resolve(projectDir, 'components', name)`. */
  function Dest(projectDir: Path, name: string): Path {
    Resolve(Resolve(projectDir, "components"), name)
  }

  /** A plain name lands in its own directory under `components`. */
  lemma DestSpec(projectDir: Path, name: string)
    requires PlainSegment(name)
    ensures Dest(projectDir, name) == projectDir + ["components", name]
  {
    assert PlainSegment("components");
    ResolvePlainPair(projectDir, "components", name);
  }

  /** `gatherMetadata(repo)`: the name comes from the key before the shorthand is expanded. */
  function Gather(projectDir: Path, key: string, treeish: string): Dep {
    var name := DepName(key);
    Dep(ExpandRepo(key), treeish, name, Dest(projectDir, name))
  }

  /** The manifest `gitCloneDependencies` as its keys in `Object.keys` order with their values. */
  type Manifest = seq<(string, string)>

  function GatherAll(projectDir: Path, manifest: Manifest): (deps: seq<Dep>)
    ensures |deps| == |manifest|
    ensures forall i :: 0 <= i < |manifest| ==> deps[i] == Gather(projectDir, manifest[i].0, manifest[i].1)
  {
    seq(|manifest|, i requires 0 <= i < |manifest| => Gather(projectDir, manifest[i].0, manifest[i].1))
  }

  /**
   * `gatherMetadata` over the manifest, entry by entry: the treeish is the manifest value,
   * the name is the '/'-free trimmed last segment of the key, a key with one '/' is fetched
   * from GitHub under that key as its short name and any other key is fetched as written,
   * and a plain name lands in `components/<name>`.
   */
  lemma GatherAllSpec(projectDir: Path, manifest: Manifest)
    ensures var deps := GatherAll(projectDir, manifest);
      && |deps| == |manifest|
      && forall i :: 0 <= i < |manifest| ==>
           && deps[i].treeish == manifest[i].1
           && '/' !in deps[i].name
           && ('/' !in manifest[i].0 ==> deps[i].name == RemoveSuffix(Trim(manifest[i].0), ".git"))
           && (Count(manifest[i].0, '/') == 1 ==>
                && deps[i].repo == "git://github.com/" + manifest[i].0 + ".git"
                && BackendFor(deps[i].repo) == GithubApi
                && GithubShortName(deps[i].repo) == manifest[i].0)
           && (Count(manifest[i].0, '/') != 1 ==> deps[i].repo == manifest[i].0)
           && (PlainSegment(deps[i].name) ==> deps[i].dest == projectDir + ["components", deps[i].name])
  {
    var deps := GatherAll(projectDir, manifest);
    forall i | 0 <= i < |manifest|
      ensures '/' !in deps[i].name
      ensures '/' !in manifest[i].0 ==> deps[i].name == RemoveSuffix(Trim(manifest[i].0), ".git")
      ensures Count(manifest[i].0, '/') == 1 ==>
                && deps[i].repo == "git://github.com/" + manifest[i].0 + ".git"
                && BackendFor(deps[i].repo) == GithubApi
                && GithubShortName(deps[i].repo) == manifest[i].0
      ensures Count(manifest[i].0, '/') != 1 ==> deps[i].repo == manifest[i].0
      ensures PlainSegment(deps[i].name) ==> deps[i].dest == projectDir + ["components", deps[i].name]
    {
      DepNameSpec(manifest[i].0);
      ExpandRepoSpec(manifest[i].0);
      if PlainSegment(deps[i].name) {
        DestSpec(projectDir, deps[i].name);
      }
    }
  }

  /**
   * A shorthand key `<owner>/<name>` is fetched from `git://github.com/<owner>/<name>.git`
   * through the GitHub API under the short name `<owner>/<name>`, and the dependency is named
   * after `<name>` alone.
   */
  lemma GatherShorthand(projectDir: Path, owner: string, repoName: string, treeish: string)
    requires '/' !in owner && '/' !in repoName
    ensures var key := owner + "/" + repoName;
      var d := Gather(projectDir, key, treeish);
      && d.repo == "git://github.com/" + key + ".git"
      && BackendFor(d.repo) == GithubApi
      && GithubShortName(d.repo) == key
      && d.treeish == treeish
      && d.name == DepName(repoName)
      && (PlainSegment(d.name) ==> d.dest == projectDir + ["components", d.name])
  {
    var key := owner + "/" + repoName;
    ShorthandCount(owner, repoName);
    ExpandRepoSpec(key);
    ShorthandName(owner, repoName);
    if PlainSegment(DepName(repoName)) {
      DestSpec(projectDir, DepName(repoName));
    }
  }

  lemma ShorthandCount(owner: string, repoName: string)
    requires '/' !in owner && '/' !in repoName
    ensures Count(owner + "/" + repoName, '/') == 1
  {
    assert owner + "/" + repoName == owner + (['/'] + repoName);
    CountAppend(owner, ['/'] + repoName, '/');
    CountAppend(['/'], repoName, '/');
    CountZero(owner, '/');
    CountZero(repoName, '/');
  }

  lemma ShorthandName(owner: string, repoName: string)
    requires '/' !in repoName
    ensures DepName(owner + "/" + repoName) == DepName(repoName)
  {
    assert owner + "/" + repoName == owner + ['/'] + repoName;
    LastFieldAfter(owner, repoName, '/');
    LastFieldSpec(repoName, '/');
  }

  /** What `checkUpdates` finds in the destination's `.npm-git-clone` file. */
  datatype Meta = Absent | Stored(treeish: Option<string>) | Unreadable

  /**
   * The file is absent when the destination or the file does not exist; a record written by
   * `storeMetadata`, or any other JSON value but `null`, yields its `treeish` property; a
   * folder, text that is not JSON and `null` make `JSON.parse(...).treeish` throw.
   */
  function LookupMeta(disk: Disk, dest: Path): Meta {
    if dest !in disk || MetaFile !in disk[dest] then Absent
    else
      match disk[dest][MetaFile]
      case Record(_, treeish) => Stored(Some(treeish))
      case Json(treeish) => Stored(treeish)
      case _ => Unreadable
  }

  /** `checkUpdates(obj)`: fetch what has no metadata, otherwise ask `needsUpdate`. */
  function CheckDecision(lib: Library, o: Oracle, disk: Disk, d: Dep): Result<bool> {
    match LookupMeta(disk, d.dest)
    case Absent => Ok(true)
    case Unreadable => Err(MetadataUnreadable(d.dest))
    case Stored(current) => NeedsUpdateDecision(lib, current, d.treeish, RefsAnswer(o, d.repo))
  }

  /**
   * The `filterSeries(checkUpdates)` stage over `deps`, folded from the back so that a loop
   * over the dependencies extends it one at a time: the first failure ends the stage.
   */
  function CheckAll(lib: Library, o: Oracle, disk: Disk, deps: seq<Dep>): Result<seq<Dep>> {
    if deps == [] then Ok([])
    else
      var last := deps[|deps| - 1];
      match CheckAll(lib, o, disk, deps[..|deps| - 1])
      case Err(e) => Err(e)
      case Ok(kept) =>
        match CheckDecision(lib, o, disk, last)
        case Err(e) => Err(e)
        case Ok(fetch) => Ok(if fetch then kept + [last] else kept)
  }

  /** Reference definition: the dependencies whose decision is to fetch, in order. */
  function Selected(lib: Library, o: Oracle, disk: Disk, deps: seq<Dep>): seq<Dep> {
    if deps == [] then []
    else
      var head := if CheckDecision(lib, o, disk, deps[0]) == Ok(true) then [deps[0]] else [];
      head + Selected(lib, o, disk, deps[1..])
  }

  lemma {:induction false} SelectedAppend(lib: Library, o: Oracle, disk: Disk, a: seq<Dep>, b: seq<Dep>)
    ensures Selected(lib, o, disk, a + b) == Selected(lib, o, disk, a) + Selected(lib, o, disk, b)
  {
    if a != [] {
      SelectedAppend(lib, o, disk, a[1..], b);
      assert (a + b)[0] == a[0];
      assert (a + b)[1..] == a[1..] + b;
      var head := if CheckDecision(lib, o, disk, a[0]) == Ok(true) then [a[0]] else [];
      assert Selected(lib, o, disk, a + b) == head + Selected(lib, o, disk, a[1..] + b);
      assert Selected(lib, o, disk, a) == head + Selected(lib, o, disk, a[1..]);
      assert head + (Selected(lib, o, disk, a[1..]) + Selected(lib, o, disk, b))
        == (head + Selected(lib, o, disk, a[1..])) + Selected(lib, o, disk, b);
    } else {
      assert a + b == b;
    }
  }

  /**
   * The check stage succeeds exactly when every decision succeeds, and then keeps the
   * dependencies to fetch in manifest order; otherwise it fails with the first failure.
   */
  lemma {:induction false} CheckAllSpec(lib: Library, o: Oracle, disk: Disk, deps: seq<Dep>)
    ensures CheckAll(lib, o, disk, deps).Ok? <==>
      forall i :: 0 <= i < |deps| ==> CheckDecision(lib, o, disk, deps[i]).Ok?
    ensures CheckAll(lib, o, disk, deps).Ok? ==> CheckAll(lib, o, disk, deps).value == Selected(lib, o, disk, deps)
    ensures CheckAll(lib, o, disk, deps).Err? ==>
      exists i :: 0 <= i < |deps| && CheckDecision(lib, o, disk, deps[i]) == Err(CheckAll(lib, o, disk, deps).error)
        && forall j :: 0 <= j < i ==> CheckDecision(lib, o, disk, deps[j]).Ok?
  {
    CheckAllOk(lib, o, disk, deps);
    CheckAllKeeps(lib, o, disk, deps);
    CheckAllErr(lib, o, disk, deps);
  }

  lemma {:induction false} CheckAllOk(lib: Library, o: Oracle, disk: Disk, deps: seq<Dep>)
    ensures CheckAll(lib, o, disk, deps).Ok? <==>
      forall i :: 0 <= i < |deps| ==> CheckDecision(lib, o, disk, deps[i]).Ok?
    decreases |deps|
  {
    if deps != [] {
      var n := |deps| - 1;
      CheckAllOk(lib, o, disk, deps[..n]);
      assert forall i :: 0 <= i < n ==> deps[..n][i] == deps[i];
    }
  }

  lemma {:induction false} CheckAllKeeps(lib: Library, o: Oracle, disk: Disk, deps: seq<Dep>)
    ensures CheckAll(lib, o, disk, deps).Ok? ==> CheckAll(lib, o, disk, deps).value == Selected(lib, o, disk, deps)
    decreases |deps|
  {
    if deps != [] {
      var n := |deps| - 1;
      var init := deps[..n];
      CheckAllKeeps(lib, o, disk, init);
      SelectedAppend(lib, o, disk, init, [deps[n]]);
      assert init + [deps[n]] == deps;
    }
  }

  lemma {:induction false} CheckAllErr(lib: Library, o: Oracle, disk: Disk, deps: seq<Dep>)
    ensures CheckAll(lib, o, disk, deps).Err? ==>
      exists i :: 0 <= i < |deps| && CheckDecision(lib, o, disk, deps[i]) == Err(CheckAll(lib, o, disk, deps).error)
        && forall j :: 0 <= j < i ==> CheckDecision(lib, o, disk, deps[j]).Ok?
    decreases |deps|
  {
    if deps != [] {
      var n := |deps| - 1;
      var init := deps[..n];
      CheckAllErr(lib, o, disk, init);
      CheckAllOk(lib, o, disk, init);
      assert forall i :: 0 <= i < n ==> init[i] == deps[i];
      if CheckAll(lib, o, disk, init).Ok? && CheckDecision(lib, o, disk, deps[n]).Err? {
        assert CheckDecision(lib, o, disk, deps[n]) == Err(CheckAll(lib, o, disk, deps).error);
      }
    }
  }

  /** `checkUpdates(obj)` asks `util.refs` exactly when a record is read and the treeish is a range. */
  predicate QueriesRefs(lib: Library, disk: Disk, d: Dep) {
    LookupMeta(disk, d.dest).Stored? && lib.validRange(d.treeish)
  }

  /**
   * The ref state after the check stage over `deps`, started in `s`: one `util.refs` per
   * dependency that queries, up to and including the first one whose decision fails.
   */
  function CheckState(lib: Library, o: Oracle, disk: Disk, s: RefsState, deps: seq<Dep>): RefsState {
    if deps == [] then s
    else
      var init := deps[..|deps| - 1];
      var prev := CheckState(lib, o, disk, s, init);
      var last := deps[|deps| - 1];
      if CheckAll(lib, o, disk, init).Err? || !QueriesRefs(lib, disk, last) then prev
      else StepRefs(o, prev, last.repo)
  }

  lemma PrefixSnoc<T>(s: seq<T>, i: nat)
    requires i < |s|
    ensures s[..i] + [s[i]] == s[..i + 1]
  {
  }

  /** The check stage over one more dependency, for both its result and its ref state. */
  lemma CheckSnoc(lib: Library, o: Oracle, disk: Disk, s: RefsState, pre: seq<Dep>, d: Dep)
    ensures CheckAll(lib, o, disk, pre + [d]) ==
      match CheckAll(lib, o, disk, pre)
      case Err(e) => Err(e)
      case Ok(kept) =>
        match CheckDecision(lib, o, disk, d)
        case Err(e) => Err(e)
        case Ok(fetch) => Ok(if fetch then kept + [d] else kept)
    ensures CheckState(lib, o, disk, s, pre + [d]) ==
      if CheckAll(lib, o, disk, pre).Err? || !QueriesRefs(lib, disk, d) then CheckState(lib, o, disk, s, pre)
      else StepRefs(o, CheckState(lib, o, disk, s, pre), d.repo)
  {
    assert (pre + [d])[..|pre|] == pre;
  }

  /**
   * The check stage only adds ref queries: the state it leaves carries `s` forward, and with
   * no dependency that queries, nothing changes at all.
   */
  lemma {:induction false} CheckStateExtends(lib: Library, o: Oracle, disk: Disk, s: RefsState, deps: seq<Dep>)
    ensures Extends(s, CheckState(lib, o, disk, s, deps))
    ensures (forall i :: 0 <= i < |deps| ==> !QueriesRefs(lib, disk, deps[i])) ==> CheckState(lib, o, disk, s, deps) == s
    decreases |deps|
  {
    if deps == [] {
      assert s.log[..|s.log|] == s.log && s.queried[..|s.queried|] == s.queried;
    } else {
      var init := deps[..|deps| - 1];
      var prev := CheckState(lib, o, disk, s, init);
      CheckStateExtends(lib, o, disk, s, init);
      StepRefsSpec(o, prev, deps[|deps| - 1].repo);
      ExtendsTrans(s, prev, StepRefs(o, prev, deps[|deps| - 1].repo));
    }
  }

  /** A dependency without a `.npm-git-clone` file is always fetched. */
  lemma UnrecordedIsFetched(lib: Library, o: Oracle, disk: Disk, deps: seq<Dep>, i: nat)
    requires i < |deps| && LookupMeta(disk, deps[i].dest) == Absent
    requires CheckAll(lib, o, disk, deps).Ok?
    ensures deps[i] in CheckAll(lib, o, disk, deps).value
  {
    CheckAllSpec(lib, o, disk, deps);
    SelectedAppend(lib, o, disk, deps[..i], deps[i..]);
    assert deps[..i] + deps[i..] == deps;
    assert deps[i..] == [deps[i]] + deps[i + 1..];
    SelectedAppend(lib, o, disk, [deps[i]], deps[i + 1..]);
  }

  /**
   * A dependency with metadata is fetched exactly when `needsUpdate` holds of the stored
   * treeish: never for a specifier that is not a range, and for a range exactly when the
   * matched tag differs from the stored one.
   */
  lemma RecordedDecision(lib: Library, o: Oracle, disk: Disk, d: Dep, current: Option<string>)
    requires LookupMeta(disk, d.dest) == Stored(current)
    ensures !lib.validRange(d.treeish) ==> CheckDecision(lib, o, disk, d) == Ok(false)
    ensures lib.validRange(d.treeish) && RefsAnswer(o, d.repo).Ok? && CheckDecision(lib, o, disk, d).Ok? ==>
      exists i :: IsBestAt(lib, d.treeish, Candidates(RefsAnswer(o, d.repo).value), i)
        && CheckDecision(lib, o, disk, d).value == (Some(Candidates(RefsAnswer(o, d.repo).value)[i].tag) != current)
  {
    NeedsUpdateSpec(lib, current, d.treeish, RefsAnswer(o, d.repo));
  }

  /** The `getArchive` stage made `f` from `d`: same dependency, the treeish `getArchive` resolved. */
  ghost predicate FetchedFrom(lib: Library, o: Oracle, d: Dep, f: Fetched) {
    && f.repo == d.repo && f.name == d.name && f.dest == d.dest
    && RefsAnswer(o, d.repo).Ok?
    && ResolveTreeish(lib, d.repo, d.treeish, RefsAnswer(o, d.repo).value) == Ok(f.treeish)
  }

  /**
   * `getArchive(obj)` for one kept dependency, started in `s`: `util.refs`, then the calls of
   * `ArchiveTrace`, and the record the later stages use.
   */
  function FetchStep(lib: Library, o: Oracle, s: RefsState, d: Dep): (RefsState, Result<Fetched>) {
    var s1 := StepRefs(o, s, d.repo);
    var tr := ArchiveTrace(lib, o, |s1.log|, d.repo, d.treeish);
    (s1.(log := s1.log + tr.calls),
     match tr.result
     case Err(e) => Err(e)
     case Ok(a) => Ok(Fetched(d.repo, d.name, d.dest, a.treeish, a.tarball)))
  }

  /**
   * One `getArchive`: a rejection is the archive trace's, after the ref query; a success is
   * `d` with the treeish `getArchive` resolved and the tarball it produced.
   */
  lemma FetchStepSpec(lib: Library, o: Oracle, s: RefsState, d: Dep)
    ensures var (s2, r) := FetchStep(lib, o, s, d);
      var s1 := StepRefs(o, s, d.repo);
      var tr := ArchiveTrace(lib, o, |s1.log|, d.repo, d.treeish);
      && Extends(s, s2) && s2.cache == s1.cache && s2.log == s1.log + tr.calls
      && (r.Err? <==> tr.result.Err?)
      && (r.Err? ==> r.error == tr.result.error)
      && (r.Ok? ==> FetchedFrom(lib, o, d, r.value) && r.value.tarball == tr.result.value.tarball)
  {
    var s1 := StepRefs(o, s, d.repo);
    var tr := ArchiveTrace(lib, o, |s1.log|, d.repo, d.treeish);
    StepRefsSpec(o, s, d.repo);
    assert s1.log <= s1.log + tr.calls by { assert (s1.log + tr.calls)[..|s1.log|] == s1.log; }
    ArchiveTraceResolves(lib, o, |s1.log|, d.repo, d.treeish);
  }

  /** The state and result of the fetch stage. */
  datatype FetchStage = FetchStage(state: RefsState, result: Result<seq<Fetched>>)

  /**
   * The `mapSeries(getArchive)` stage over `kept`, started in `s`, folded from the back: the
   * first rejection ends it.
   */
  function FetchAll(lib: Library, o: Oracle, s: RefsState, kept: seq<Dep>): FetchStage {
    if kept == [] then FetchStage(s, Ok([]))
    else
      var prev := FetchAll(lib, o, s, kept[..|kept| - 1]);
      if prev.result.Err? then prev
      else
        var (s2, r) := FetchStep(lib, o, prev.state, kept[|kept| - 1]);
        FetchStage(s2, match r case Err(e) => Err(e) case Ok(f) => Ok(prev.result.value + [f]))
  }

  /** The fetch stage over one more dependency, after a prefix that succeeded. */
  lemma FetchSnoc(lib: Library, o: Oracle, s: RefsState, pre: seq<Dep>, d: Dep, fetched: seq<Fetched>)
    requires FetchAll(lib, o, s, pre).result == Ok(fetched)
    ensures var (s2, r) := FetchStep(lib, o, FetchAll(lib, o, s, pre).state, d);
      FetchAll(lib, o, s, pre + [d]) == FetchStage(s2, match r case Err(e) => Err(e) case Ok(f) => Ok(fetched + [f]))
  {
    assert (pre + [d])[..|pre|] == pre;
  }

  /** Once a prefix of the fetch stage is rejected, so is the whole stage, with nothing further. */
  lemma {:induction false} FetchAllErrSticks(lib: Library, o: Oracle, s: RefsState, kept: seq<Dep>, n: nat)
    requires n <= |kept| && FetchAll(lib, o, s, kept[..n]).result.Err?
    ensures FetchAll(lib, o, s, kept) == FetchAll(lib, o, s, kept[..n])
    decreases |kept|
  {
    if n == |kept| {
      assert kept[..n] == kept;
    } else {
      var init := kept[..|kept| - 1];
      assert init[..n] == kept[..n];
      FetchAllErrSticks(lib, o, s, init, n);
    }
  }

  /**
   * A successful fetch stage has one record per kept dependency, the `k`-th being the result
   * of the `k`-th `getArchive`, made after the first `k`.
   */
  lemma {:induction false} FetchAllOk(lib: Library, o: Oracle, s: RefsState, kept: seq<Dep>)
    requires FetchAll(lib, o, s, kept).result.Ok?
    ensures var fs := FetchAll(lib, o, s, kept).result.value;
      && |fs| == |kept|
      && forall k :: 0 <= k < |kept| ==>
           && FetchAll(lib, o, s, kept[..k]).result.Ok?
           && FetchStep(lib, o, FetchAll(lib, o, s, kept[..k]).state, kept[k]).1 == Ok(fs[k])
    decreases |kept|
  {
    if kept != [] {
      var n := |kept| - 1;
      var init := kept[..n];
      var prev := FetchAll(lib, o, s, init);
      var fs := FetchAll(lib, o, s, kept).result.value;
      var step := FetchStep(lib, o, prev.state, kept[n]);
      assert prev.result.Ok? && step.1.Ok? && fs == prev.result.value + [step.1.value];
      FetchAllOk(lib, o, s, init);
      forall k | 0 <= k < |kept|
        ensures FetchAll(lib, o, s, kept[..k]).result.Ok?
        ensures FetchStep(lib, o, FetchAll(lib, o, s, kept[..k]).state, kept[k]).1 == Ok(fs[k])
      {
        if k < n {
          assert kept[..k] == init[..k] && kept[k] == init[k] && fs[k] == prev.result.value[k];
        } else {
          assert kept[..k] == init;
        }
      }
    }
  }

  /** The `k`-th `getArchive` rejects with `e`, after all the earlier ones succeeded. */
  predicate FetchFailsAt(lib: Library, o: Oracle, s: RefsState, kept: seq<Dep>, k: int, e: Error) {
    && 0 <= k < |kept|
    && FetchAll(lib, o, s, kept[..k]).result.Ok?
    && FetchStep(lib, o, FetchAll(lib, o, s, kept[..k]).state, kept[k]).1 == Err(e)
  }

  /**
   * A rejected fetch stage is rejected by one `getArchive`, made after all the earlier ones
   * succeeded.
   */
  lemma {:induction false} FetchAllErr(lib: Library, o: Oracle, s: RefsState, kept: seq<Dep>)
    requires FetchAll(lib, o, s, kept).result.Err?
    ensures exists k :: FetchFailsAt(lib, o, s, kept, k, FetchAll(lib, o, s, kept).result.error)
    decreases |kept|
  {
    var n := |kept| - 1;
    var init := kept[..n];
    var prev := FetchAll(lib, o, s, init);
    if prev.result.Err? {
      FetchAllErr(lib, o, s, init);
      var k :| FetchFailsAt(lib, o, s, init, k, prev.result.error);
      assert kept[..k] == init[..k] && kept[k] == init[k];
      assert FetchFailsAt(lib, o, s, kept, k, prev.result.error);
    } else {
      assert kept[..n] == init;
      assert FetchFailsAt(lib, o, s, kept, n, FetchAll(lib, o, s, kept).result.error);
    }
  }

  /** Every record of a successful fetch stage comes from its kept dependency. */
  lemma FetchAllFrom(lib: Library, o: Oracle, s: RefsState, kept: seq<Dep>)
    requires FetchAll(lib, o, s, kept).result.Ok?
    ensures var fs := FetchAll(lib, o, s, kept).result.value;
      |fs| == |kept| && forall k :: 0 <= k < |kept| ==> FetchedFrom(lib, o, kept[k], fs[k])
  {
    var fs := FetchAll(lib, o, s, kept).result.value;
    FetchAllOk(lib, o, s, kept);
    forall k | 0 <= k < |kept| ensures FetchedFrom(lib, o, kept[k], fs[k]) {
      FetchStepSpec(lib, o, FetchAll(lib, o, s, kept[..k]).state, kept[k]);
    }
  }

  /** The fetch stage carries the ref state forward: the cache is kept, the log only grows. */
  lemma {:induction false} FetchAllExtends(lib: Library, o: Oracle, s: RefsState, kept: seq<Dep>)
    ensures Extends(s, FetchAll(lib, o, s, kept).state)
    decreases |kept|
  {
    if kept == [] {
      assert s.log[..|s.log|] == s.log && s.queried[..|s.queried|] == s.queried;
    } else {
      var init := kept[..|kept| - 1];
      var prev := FetchAll(lib, o, s, init);
      FetchAllExtends(lib, o, s, init);
      if prev.result.Ok? {
        FetchStepSpec(lib, o, prev.state, kept[|kept| - 1]);
        ExtendsTrans(s, prev.state, FetchStep(lib, o, prev.state, kept[|kept| - 1]).0);
      }
    }
  }

  /** A name with a leading '.' is hidden from `shell.ls` and from the `*` glob. */
  predicate Hidden(name: string) {
    |name| > 0 && name[0] == '.'
  }

  /** The names `shell.ls(dir)` lists. */
  function Visible(d: Dir): set<string> {
    set n | n in d && !Hidden(n)
  }

  lemma SingletonUnique(s: set<string>, a: string, b: string)
    requires |s| == 1 && a in s && b in s
    ensures a == b
  {
    var rest := s - {a};
    assert |rest| == 0;
    assert b in rest || b == a;
  }

  lemma SingletonAllEqual(s: set<string>)
    requires |s| == 1
    ensures forall a, b :: a in s && b in s ==> a == b
  {
    forall a, b | a in s && b in s ensures a == b { SingletonUnique(s, a, b); }
  }

  /** The children the `*` glob of the move picks up: the visible ones not named like the wrapper. */
  function MovedUp(children: map<string, Entry>, wrapper: string): set<string> {
    set c | c in children && !Hidden(c) && c != wrapper
  }

  /** `d` after moving the visible children of its folder `wrapper` up into `d`. */
  function MoveUp(d: Dir, wrapper: string, children: map<string, Entry>): Dir {
    var moved := MovedUp(children, wrapper);
    map n | n in d.Keys + moved ::
      if n in moved then children[n]
      else if n == wrapper then Folder(map c | c in children && c !in moved :: children[c])
      else d[n]
  }

  /**
   * `flatten(obj)` on the destination: with exactly one visible entry, and that entry a
   * folder, its visible contents move up; the wrapper stays behind.
   */
  function FlattenDir(d: Dir): Dir {
    var vis := Visible(d);
    if |vis| != 1 then d
    else
      SingletonAllEqual(vis);
      var wrapper :| wrapper in vis;
      match d[wrapper]
      case Folder(children) => MoveUp(d, wrapper, children)
      case _ => d
  }

  /**
   * With zero or several visible entries, or a single file, nothing changes. With a single
   * folder `w`: each visible child of `w` not named `w` is now an entry of the destination
   * with the same contents, `w` is still there holding only what was not moved, and every
   * other entry is kept.
   */
  lemma FlattenSpec(d: Dir, w: string)
    ensures |Visible(d)| != 1 ==> FlattenDir(d) == d
    ensures Visible(d) == {w} && !d[w].Folder? ==> FlattenDir(d) == d
    ensures Visible(d) == {w} && d[w].Folder? ==>
      var children := d[w].children;
      var f := FlattenDir(d);
      && (forall c :: c in children && !Hidden(c) && c != w ==> c in f && f[c] == children[c])
      && w in f && f[w] == Folder(map c | c in children && (Hidden(c) || c == w) :: children[c])
      && (forall n :: n in d && n != w ==> n in f && f[n] == d[n])
      && (forall n :: n in f ==> n in d || n in children)
  {
    if Visible(d) == {w} {
      assert w in Visible(d);
      var vis := Visible(d);
      forall a | a in vis ensures a == w { SingletonUnique(vis, a, w); }
      if d[w].Folder? {
        var children := d[w].children;
        var moved := MovedUp(children, w);
        forall n | n in d && n != w ensures n !in moved {
          assert n !in vis;
        }
        assert (map c | c in children && c !in moved :: children[c])
          == (map c | c in children && (Hidden(c) || c == w) :: children[c]);
      }
    }
  }

  /** The `untar` stage's choice: gunzip exactly when `path.extname` is ".gz" or ".tgz". */
  function ShouldGunzip(tarball: Path): bool {
    var ext := ExtName(Basename(tarball));
    ext == ".gz" || ext == ".tgz"
  }

  /** `b` ends in `e` with at least one character before it. */
  predicate HasSuffixAfter(b: string, e: string) {
    |b| > |e| && b[|b| - |e|..] == e
  }

  /** For a dotted extension with no further dot, `path.extname` is it exactly when the name ends in it after something. */
  lemma ExtNameIs(b: string, e: string)
    requires |e| >= 2 && e[0] == '.' && '.' !in e[1..]
    ensures ExtName(b) == e <==> HasSuffixAfter(b, e)
  {
    var li := LastIndexOf(b, '.');
    if HasSuffixAfter(b, e) {
      var k := |b| - |e|;
      assert b[k] == e[0];
      assert b[k..] == e;
      assert li.Some? by { assert b[k] == '.'; }
      var i := li.value;
      assert i == k;
    }
    if ExtName(b) == e {
      assert li.Some? && li.value != 0;
      var i := li.value;
      assert b[i..] == e;
      assert |b| - i == |e|;
      assert b[|b| - |e|..] == e;
    }
  }

  /** The gunzip step runs exactly for basenames ending in ".gz" or ".tgz" after at least one character. */
  lemma ShouldGunzipSpec(tarball: Path)
    ensures ShouldGunzip(tarball) <==>
      HasSuffixAfter(Basename(tarball), ".gz") || HasSuffixAfter(Basename(tarball), ".tgz")
  {
    ExtNameIs(Basename(tarball), ".gz");
    ExtNameIs(Basename(tarball), ".tgz");
  }

  /** The disk after a stage, whether it ended normally, and how many extractions it made. */
  datatype Stage = Stage(disk: Disk, status: Outcome, done: nat)

  /** What `untar(dep)` works from: the tarball, whether to gunzip it, and the destination. */
  datatype Job = Job(tarball: Path, gunzip: bool, dest: Path)

  /** `untar(dep)` gunzips by the tarball's name. */
  function JobOf(f: Fetched): Job {
    Job(f.tarball, ShouldGunzip(f.tarball), f.dest)
  }

  function Jobs(fs: seq<Fetched>): (js: seq<Job>)
    ensures |js| == |fs|
  {
    seq(|fs|, i requires 0 <= i < |fs| => JobOf(fs[i]))
  }

  /**
   * The untar stage over the first `n` jobs, started when the log has length `t`: one
   * extraction per job, in order, the `i`-th at `t + i`; a failed extraction ends it.
   */
  function UntarUpTo(o: Oracle, t: nat, disk: Disk, js: seq<Job>, n: nat): (r: Stage)
    requires n <= |js|
    ensures r.done <= n
    ensures r.status.Pass? ==> r.done == n
  {
    if n == 0 then Stage(disk, Pass, 0)
    else
      var prev := UntarUpTo(o, t, disk, js, n - 1);
      if prev.status.Fail? then prev
      else
        var j := js[n - 1];
        var x := o.extract(t + (n - 1), j.tarball, j.gunzip, DirAt(prev.disk, j.dest));
        Stage(prev.disk[j.dest := x.contents], x.status, n)
  }

  /** The `mapSeries(untar)` stage over all fetched records. */
  function UntarAll(o: Oracle, t: nat, disk: Disk, fs: seq<Fetched>): (r: Stage)
    ensures r.done <= |fs|
    ensures r.status.Pass? ==> r.done == |fs|
  {
    UntarUpTo(o, t, disk, Jobs(fs), |fs|)
  }

  /** The calls the untar stage makes for the first jobs. */
  function ExtractCalls(js: seq<Job>): seq<Call> {
    seq(|js|, i requires 0 <= i < |js| => Extract(js[i].tarball, js[i].gunzip, js[i].dest))
  }

  lemma ExtractCallsLength(js: seq<Job>)
    ensures |ExtractCalls(js)| == |js|
  {
  }

  lemma ExtractCallsSnoc(js: seq<Job>, j: Job)
    ensures ExtractCalls(js + [j]) == ExtractCalls(js) + [Extract(j.tarball, j.gunzip, j.dest)]
  {
  }

  /** The `k`-th extraction fails with `e` after the first `k` passed. */
  predicate ExtractFailsAt(o: Oracle, t: nat, disk: Disk, js: seq<Job>, k: int, e: Error) {
    && 0 <= k < |js|
    && var prev := UntarUpTo(o, t, disk, js, k);
    && prev.status == Pass
    && o.extract(t + k, js[k].tarball, js[k].gunzip, DirAt(prev.disk, js[k].dest)).status == Fail(e)
  }

  /** The `k`-th extraction passes after the first `k` passed. */
  predicate ExtractPassesAt(o: Oracle, t: nat, disk: Disk, js: seq<Job>, k: int) {
    && 0 <= k < |js|
    && var prev := UntarUpTo(o, t, disk, js, k);
    && prev.status == Pass
    && o.extract(t + k, js[k].tarball, js[k].gunzip, DirAt(prev.disk, js[k].dest)).status == Pass
  }

  /** An untar stage that passes on the first `n` jobs made each of those extractions, and each passed. */
  lemma {:induction false} UntarUpToPass(o: Oracle, t: nat, disk: Disk, js: seq<Job>, n: nat)
    requires n <= |js| && UntarUpTo(o, t, disk, js, n).status == Pass
    ensures forall k :: 0 <= k < n ==> ExtractPassesAt(o, t, disk, js, k)
  {
    if n > 0 {
      assert UntarUpTo(o, t, disk, js, n - 1).status == Pass;
      UntarUpToPass(o, t, disk, js, n - 1);
    }
  }

  /** Once an extraction fails, the untar stage ends there. */
  lemma {:induction false} UntarFailSticks(o: Oracle, t: nat, disk: Disk, js: seq<Job>, n: nat, m: nat)
    requires n <= m <= |js| && UntarUpTo(o, t, disk, js, n).status.Fail?
    ensures UntarUpTo(o, t, disk, js, m) == UntarUpTo(o, t, disk, js, n)
    decreases m
  {
    if n < m {
      UntarFailSticks(o, t, disk, js, n, m - 1);
    }
  }

  /**
   * A failed untar stage ends with the failure of its last extraction, made after every
   * earlier extraction passed.
   */
  lemma {:induction false} UntarUpToFail(o: Oracle, t: nat, disk: Disk, js: seq<Job>, n: nat)
    requires n <= |js| && UntarUpTo(o, t, disk, js, n).status.Fail?
    ensures 1 <= UntarUpTo(o, t, disk, js, n).done
    ensures ExtractFailsAt(o, t, disk, js, UntarUpTo(o, t, disk, js, n).done - 1, UntarUpTo(o, t, disk, js, n).status.error)
  {
    var prev := UntarUpTo(o, t, disk, js, n - 1);
    if prev.status.Fail? {
      UntarUpToFail(o, t, disk, js, n - 1);
      assert UntarUpTo(o, t, disk, js, n).status == prev.status && UntarUpTo(o, t, disk, js, n).done == prev.done;
    } else {
      var j := js[n - 1];
      var x := o.extract(t + (n - 1), j.tarball, j.gunzip, DirAt(prev.disk, j.dest));
      assert UntarUpTo(o, t, disk, js, n).status == x.status && UntarUpTo(o, t, disk, js, n).done == n;
      assert ExtractFailsAt(o, t, disk, js, n - 1, x.status.error);
    }
  }

  /** Extraction changes only the destinations of the jobs. */
  lemma {:induction false} UntarFrame(o: Oracle, t: nat, disk: Disk, js: seq<Job>, n: nat, p: Path)
    requires n <= |js|
    requires forall i :: 0 <= i < |js| ==> js[i].dest != p
    ensures DirAt(UntarUpTo(o, t, disk, js, n).disk, p) == DirAt(disk, p)
  {
    if n > 0 {
      UntarFrame(o, t, disk, js, n - 1, p);
    }
  }

  /** The `map(flatten)` stage: each existing destination flattened, in order. */
  function FlattenAll(disk: Disk, fs: seq<Fetched>): Disk {
    if fs == [] then disk
    else
      var prev := FlattenAll(disk, fs[..|fs| - 1]);
      var dest := fs[|fs| - 1].dest;
      if dest in prev then prev[dest := FlattenDir(prev[dest])] else prev
  }

  /**
   * `storeMetadata(obj)`: the `{repo, treeish}` record, with the resolved treeish, written over
   * whatever file was there; `writeFileSync` throws when `.npm-git-clone` is a directory.
   */
  function StoreMeta(d: Dir, f: Fetched): Result<Dir> {
    if MetaFile in d && d[MetaFile].Folder? then Err(MetadataUnwritable(f.dest))
    else Ok(d[MetaFile := Record(f.repo, f.treeish)])
  }

  /**
   * The `map(storeMetadata)` stage over the first `n` records, in order: each record written
   * into its destination, until a write throws.
   */
  function StoreUpTo(disk: Disk, fs: seq<Fetched>, n: nat): (r: Stage)
    requires n <= |fs|
    ensures r.done <= n
    ensures r.status.Pass? ==> r.done == n
  {
    if n == 0 then Stage(disk, Pass, 0)
    else
      var prev := StoreUpTo(disk, fs, n - 1);
      if prev.status.Fail? then prev
      else
        var f := fs[n - 1];
        match StoreMeta(DirAt(prev.disk, f.dest), f)
        case Err(e) => Stage(prev.disk, Fail(e), n)
        case Ok(d) => Stage(prev.disk[f.dest := d], Pass, n)
  }

  function StoreAll(disk: Disk, fs: seq<Fetched>): (r: Stage)
    ensures r.done <= |fs|
    ensures r.status.Pass? ==> r.done == |fs|
  {
    StoreUpTo(disk, fs, |fs|)
  }

  /** The `k`-th write is made, after the earlier ones succeeded, and throws `e`. */
  predicate StoreFailsAt(disk: Disk, fs: seq<Fetched>, k: int, e: Error) {
    && 0 <= k < |fs| && StoreUpTo(disk, fs, k).status == Pass
    && StoreMeta(DirAt(StoreUpTo(disk, fs, k).disk, fs[k].dest), fs[k]) == Err(e)
  }

  /** The `k`-th write is made, after the earlier ones succeeded, and succeeds. */
  predicate StorePassesAt(disk: Disk, fs: seq<Fetched>, k: int) {
    && 0 <= k < |fs| && StoreUpTo(disk, fs, k).status == Pass
    && StoreMeta(DirAt(StoreUpTo(disk, fs, k).disk, fs[k].dest), fs[k]).Ok?
  }

  /** A passing store stage made every write, in order, and each succeeded. */
  lemma {:induction false} StoreUpToPass(disk: Disk, fs: seq<Fetched>, n: nat)
    requires n <= |fs| && StoreUpTo(disk, fs, n).status == Pass
    ensures forall k :: 0 <= k < n ==> StorePassesAt(disk, fs, k)
  {
    if n > 0 {
      StoreUpToPass(disk, fs, n - 1);
    }
  }

  /** A failed store stage ends with its last write, which threw the stage's error. */
  lemma {:induction false} StoreUpToFail(disk: Disk, fs: seq<Fetched>, n: nat)
    requires n <= |fs| && StoreUpTo(disk, fs, n).status.Fail?
    ensures var r := StoreUpTo(disk, fs, n);
      1 <= r.done && StoreFailsAt(disk, fs, r.done - 1, r.status.error)
  {
    if StoreUpTo(disk, fs, n - 1).status.Fail? {
      StoreUpToFail(disk, fs, n - 1);
    }
  }

  /** Once a write throws, the stage ends there: no later record is written. */
  lemma {:induction false} StoreFailSticks(disk: Disk, fs: seq<Fetched>, n: nat, m: nat)
    requires n <= m <= |fs| && StoreUpTo(disk, fs, n).status.Fail?
    ensures StoreUpTo(disk, fs, m) == StoreUpTo(disk, fs, n)
    decreases m
  {
    if m > n {
      StoreFailSticks(disk, fs, n, m - 1);
    }
  }

  /**
   * After a passing store stage, a destination's metadata is the record of the last dependency
   * stored there.
   */
  lemma {:induction false} StoreAllLast(disk: Disk, fs: seq<Fetched>, n: nat, i: nat)
    requires i < n <= |fs| && StoreUpTo(disk, fs, n).status == Pass
    requires forall j :: i < j < n ==> fs[j].dest != fs[i].dest
    ensures LookupMeta(StoreUpTo(disk, fs, n).disk, fs[i].dest) == Stored(Some(fs[i].treeish))
    decreases n
  {
    if i < n - 1 {
      StoreAllLast(disk, fs, n - 1, i);
    }
  }

  /** The store stage leaves every directory no dependency targets as it was. */
  lemma {:induction false} StoreAllFrame(disk: Disk, fs: seq<Fetched>, n: nat, p: Path)
    requires n <= |fs| && forall j :: 0 <= j < n ==> fs[j].dest != p
    ensures DirAt(StoreUpTo(disk, fs, n).disk, p) == DirAt(disk, p)
  {
    if n > 0 {
      StoreAllFrame(disk, fs, n - 1, p);
    }
  }

  /**
   * Metadata round trip: once `f` has been fetched for `d` and its record stored, checking `d`
   * again against the same refs decides not to fetch it.
   */
  lemma RerunSkips(lib: Library, o: Oracle, disk: Disk, d: Dep, f: Fetched)
    requires FetchedFrom(lib, o, d, f) && LookupMeta(disk, d.dest) == Stored(Some(f.treeish))
    ensures CheckDecision(lib, o, disk, d) == Ok(false)
  {
    var refs := RefsAnswer(o, d.repo).value;
    if lib.validRange(d.treeish) {
      assert SemverToTag(lib, d.treeish, refs).Some?;
      assert SemverToTag(lib, d.treeish, refs).value.tag == f.treeish;
    }
  }

  /** One `report` line: `name@treeish` and the destination relative to the project. */
  function ReportLine(projectDir: Path, f: Fetched): string {
    f.name + "@" + f.treeish + " " + Relative(projectDir, f.dest)
  }

  function ReportLines(projectDir: Path, fs: seq<Fetched>): (lines: seq<string>)
    ensures |lines| == |fs|
    ensures forall i :: 0 <= i < |fs| ==> lines[i] == ReportLine(projectDir, fs[i])
  {
    seq(|fs|, i requires 0 <= i < |fs| => ReportLine(projectDir, fs[i]))
  }

  /** A dependency gathered under `projectDir` with a plain name reports `components/<name>`. */
  lemma ReportLineOfGathered(projectDir: Path, d: Dep, f: Fetched)
    requires PlainSegment(d.name) && d.dest == Dest(projectDir, d.name)
    requires f.name == d.name && f.dest == d.dest
    ensures ReportLine(projectDir, f) == d.name + "@" + f.treeish + " components/" + d.name
  {
    RelativeComponents(projectDir, d.name);
    ReportLineBelowComponents(projectDir, f);
  }

  /** A record whose destination lies at `components/<name>` reports that relative path. */
  lemma ReportLineBelowComponents(projectDir: Path, f: Fetched)
    requires Relative(projectDir, f.dest) == "components/" + f.name
    ensures ReportLine(projectDir, f) == f.name + "@" + f.treeish + " components/" + f.name
  {
    assert " " + "components/" == " components/";
  }

  /**
   * `report` over records whose plain names landed under `components`: one line per record,
   * in order, reading `<name>@<resolved treeish> components/<name>`.
   */
  lemma ReportLinesSpec(projectDir: Path, fs: seq<Fetched>)
    requires forall k :: 0 <= k < |fs| ==> PlainSegment(fs[k].name) && fs[k].dest == Dest(projectDir, fs[k].name)
    ensures var lines := ReportLines(projectDir, fs);
      && |lines| == |fs|
      && forall k :: 0 <= k < |fs| ==> lines[k] == fs[k].name + "@" + fs[k].treeish + " components/" + fs[k].name
  {
    forall k | 0 <= k < |fs|
      ensures ReportLine(projectDir, fs[k]) == fs[k].name + "@" + fs[k].treeish + " components/" + fs[k].name
    {
      ReportLineOfGathered(projectDir, Dep(fs[k].repo, fs[k].treeish, fs[k].name, fs[k].dest), fs[k]);
    }
  }

  lemma RelativeComponents(projectDir: Path, name: string)
    requires PlainSegment(name)
    ensures Relative(projectDir, Dest(projectDir, name)) == "components/" + name
  {
    DestSpec(projectDir, name);
    RelativeBelow(projectDir, ["components", name]);
    SlashJoinPair("components", name);
    assert "components" + "/" == "components/";
  }

  lemma SlashJoinPair(a: string, b: string)
    ensures SlashJoin([a, b]) == a + "/" + b
  {
    assert [a, b][1..] == [b];
    assert JoinWith([b], '/') == b;
    assert JoinWith([a, b], '/') == a + ['/'] + b;
  }
}
