/**
 * The stateful half of src/util.js: the module-level ref cache `_refCache` behind
 * `util.refs` (src/util.js:96-110), `needsUpdate` (144-155), `_getArchiveGit` (158-203),
 * `_getArchiveGithub` (208-240) and `getArchive` (245-273).
 *
 * Each method is tied to a specification function of the oracle's answers: `RefsAnswer` for
 * what a ref query gives, and the traces `GitTrace`, `GithubTrace` and `ArchiveTrace` for
 * the calls an archive fetch makes and what it returns.
 */
module Util {
  import opened Common
  import opened Text
  import opened Semver
  import opened Paths
  import opened GitRefs
  import opened VersionMatch
  import opened Host

  /** The backend query `util.refs` starts for `repo`. */
  function QueryCall(repo: string): Call {
    match BackendFor(repo)
    case GithubApi => ApiRefs(GithubShortName(repo))
    case GitRemote => LsRemote(repo)
  }

  /** What `util.refs(repo)` resolves to: `_refsGithub`, or `_refsGit`'s parsed listing. */
  function RefsAnswer(o: Oracle, repo: string): Result<seq<string>> {
    match BackendFor(repo)
    case GithubApi => o.apiRefs(GithubShortName(repo))
    case GitRemote =>
      match o.lsRemote(repo)
      case Err(e) => Err(e)
      case Ok(out) => Ok(ParseLsRemote(out))
  }

  /** The log after `util.refs(repo)`: one query, unless the cache already holds `repo`. */
  function AfterRefs(log: seq<Call>, cache: map<string, Result<seq<string>>>, repo: string): seq<Call> {
    if repo in cache then log else log + [QueryCall(repo)]
  }

  /**
   * What the ref queries of a run act on: the host's log, `_refCache`, and the repos whose
   * refs were queried, in order.
   */
  datatype RefsState = RefsState(log: seq<Call>, cache: map<string, Result<seq<string>>>, queried: seq<string>)

  /** The state after `util.refs(repo)`: the new query, if any, is logged and its answer cached. */
  function StepRefs(o: Oracle, s: RefsState, repo: string): RefsState {
    RefsState(AfterRefs(s.log, s.cache, repo), s.cache[repo := RefsAnswer(o, repo)],
              if repo in s.cache then s.queried else s.queried + [repo])
  }

  /** `s2` carries everything of `s` forward: the log and the queried repos grow, cached repos stay cached. */
  predicate Extends(s: RefsState, s2: RefsState) {
    && s.log <= s2.log && s.queried <= s2.queried
    && forall r :: r in s.cache ==> r in s2.cache
  }

  /**
   * `util.refs(repo)` keeps what came before; a cached repo is not queried again, and an
   * uncached one is queried exactly once, by the call its backend makes.
   */
  lemma StepRefsSpec(o: Oracle, s: RefsState, repo: string)
    ensures var s2 := StepRefs(o, s, repo);
      && Extends(s, s2) && repo in s2.cache && s2.cache[repo] == RefsAnswer(o, repo)
      && (repo in s.cache ==> s2.log == s.log && s2.queried == s.queried)
      && (repo !in s.cache ==> s2.log == s.log + [QueryCall(repo)] && s2.queried == s.queried + [repo])
      && (forall r :: r in s2.cache && r != repo ==> r in s.cache && s2.cache[r] == s.cache[r])
  {
    var s2 := StepRefs(o, s, repo);
    assert s.log <= s2.log by {
      if repo !in s.cache { assert (s.log + [QueryCall(repo)])[..|s.log|] == s.log; }
    }
    assert s.queried <= s2.queried by {
      if repo !in s.cache { assert (s.queried + [repo])[..|s.queried|] == s.queried; }
    }
  }

  /** Carrying forward is transitive. */
  lemma ExtendsTrans(a: RefsState, b: RefsState, c: RefsState)
    requires Extends(a, b) && Extends(b, c)
    ensures Extends(a, c)
  {
    assert b.log[..|a.log|] == c.log[..|b.log|][..|a.log|];
    assert b.queried[..|a.queried|] == c.queried[..|b.queried|][..|a.queried|];
  }

  /** The calls an operation makes, in order, and what it resolves or rejects with. */
  datatype Trace<T> = Trace(calls: seq<Call>, result: Result<T>)

  /** The working copy `_getArchiveGit` clones into: `<tmp>/repo`. */
  function CloneDir(tmp: Path): Path {
    tmp + ["repo"]
  }

  /** The calls `calls` made first, then those of `tr`, with its result. */
  function Prepend<T>(calls: seq<Call>, tr: Trace<T>): Trace<T> {
    Trace(calls + tr.calls, tr.result)
  }

  /**
   * `_getArchiveGit(repo, treeish)` started when the log has length `t`: a temporary
   * directory, the clone, then the steps in the working copy; a failed clone ends the chain.
   */
  function GitTrace(o: Oracle, t: nat, repo: string, treeish: string, refs: seq<string>): Trace<Path> {
    Prepend([MakeTemp], CloneTrace(o, t + 1, repo, treeish, refs, o.makeTemp(t)))
  }

  /** From the clone into `<tmp>/repo` on, started when the log has length `t`. */
  function CloneTrace(o: Oracle, t: nat, repo: string, treeish: string, refs: seq<string>, tmp: Path): Trace<Path> {
    var clone := Clone(UseShallowClone(refs, treeish), repo, CloneDir(tmp));
    match o.exec(t, clone)
    case Err(e) => Trace([Exec(clone)], Err(e))
    case Ok(_) => Prepend([Exec(clone)], WorkingCopyTrace(o, t + 1, treeish, tmp))
  }

  /**
   * In the fresh working copy: `git show-ref`, `git fetch --tags` when the listing lacks the
   * tag, then `git archive`; the first failure ends the chain.
   */
  function WorkingCopyTrace(o: Oracle, t: nat, treeish: string, tmp: Path): Trace<Path> {
    var dir := CloneDir(tmp);
    match o.exec(t, ShowRef(dir))
    case Err(e) => Trace([Exec(ShowRef(dir))], Err(e))
    case Ok(listing) =>
      if NeedsTagFetch(listing, treeish) then
        match o.exec(t + 1, FetchTags(dir))
        case Err(e) => Trace([Exec(ShowRef(dir)), Exec(FetchTags(dir))], Err(e))
        case Ok(_) => Prepend([Exec(ShowRef(dir)), Exec(FetchTags(dir))], ArchiveStep(o, t + 2, treeish, tmp))
      else Prepend([Exec(ShowRef(dir))], ArchiveStep(o, t + 1, treeish, tmp))
  }

  /** The last step of `_getArchiveGit`: `git archive` into `<tmp>/repo.tar`. */
  function ArchiveStep(o: Oracle, t: nat, treeish: string, tmp: Path): Trace<Path> {
    var archive := ArchiveTar(treeish, CloneDir(tmp));
    match o.exec(t, archive)
    case Err(e) => Trace([Exec(archive)], Err(e))
    case Ok(_) => Trace([Exec(archive)], Ok(tmp + ["repo.tar"]))
  }

  /** `_getArchiveGithub(repo, treeish)`: a temporary directory, then the tarball download. */
  function GithubTrace(o: Oracle, t: nat, repo: string, treeish: string): Trace<Path> {
    var tmp := o.makeTemp(t);
    var name := GithubShortName(repo);
    match o.apiTarball(t + 1, name, treeish)
    case Err(e) => Trace([MakeTemp, ApiTarball(name, treeish)], Err(e))
    case Ok(filename) => Trace([MakeTemp, ApiTarball(name, treeish)], Ok(Resolve(tmp, filename)))
  }

  /** The archive `getArchive` resolves with, and the treeish it was made from. */
  datatype Archive = Archive(tarball: Path, treeish: string)

  /** `getArchive(repo, treeish)` once the refs are known, started when the log has length `t`. */
  function ArchiveTrace(lib: Library, o: Oracle, t: nat, repo: string, treeish: string): Trace<Archive> {
    match RefsAnswer(o, repo)
    case Err(e) => Trace([], Err(e))
    case Ok(refs) =>
      match ResolveTreeish(lib, repo, treeish, refs)
      case Err(e) => Trace([], Err(e))
      case Ok(tag) =>
        var f := if BackendFor(repo) == GithubApi then GithubTrace(o, t, repo, tag)
                 else GitTrace(o, t, repo, tag, refs);
        match f.result
        case Err(e) => Trace(f.calls, Err(e))
        case Ok(p) => Trace(f.calls, Ok(Archive(p, tag)))
  }

  /** Every subprocess among the calls, started when the log had length `t0`, succeeded. */
  ghost predicate ExecsSucceed(o: Oracle, t0: nat, calls: seq<Call>) {
    forall i :: 0 <= i < |calls| && calls[i].Exec? ==> o.exec(t0 + i, calls[i].command).Ok?
  }

  /**
   * The chain stops at its first failure: every subprocess before the last call succeeded,
   * and a failed trace started at `t0` ends with the subprocess that failed, made when the log
   * had length `t0 + |calls| - 1`.
   */
  ghost predicate FailFast(o: Oracle, t0: nat, tr: Trace<Path>) {
    && |tr.calls| > 0
    && ExecsSucceed(o, t0, tr.calls[..|tr.calls| - 1])
    && (tr.result.Err? ==>
         && tr.calls[|tr.calls| - 1].Exec?
         && o.exec(t0 + |tr.calls| - 1, tr.calls[|tr.calls| - 1].command) == Err(tr.result.error))
  }

  /** A successful chain ends with a successful `git archive` of the treeish into `<tmp>/repo.tar`. */
  ghost predicate ArchivedOnSuccess(o: Oracle, t0: nat, tr: Trace<Path>, treeish: string, tmp: Path) {
    tr.result.Ok? ==>
      && tr.result.value == tmp + ["repo.tar"]
      && |tr.calls| > 0 && tr.calls[|tr.calls| - 1] == Exec(ArchiveTar(treeish, CloneDir(tmp)))
      && o.exec(t0 + |tr.calls| - 1, ArchiveTar(treeish, CloneDir(tmp))).Ok?
  }

  /**
   * Prepending calls made earlier, whose subprocesses succeeded, keeps both properties, counted
   * from the earlier start.
   */
  lemma PrependKeeps(o: Oracle, t0: nat, calls: seq<Call>, tr: Trace<Path>, treeish: string, tmp: Path)
    requires ExecsSucceed(o, t0, calls)
    requires FailFast(o, t0 + |calls|, tr) && ArchivedOnSuccess(o, t0 + |calls|, tr, treeish, tmp)
    ensures FailFast(o, t0, Prepend(calls, tr)) && ArchivedOnSuccess(o, t0, Prepend(calls, tr), treeish, tmp)
  {
    var p := Prepend(calls, tr);
    assert p.calls[|p.calls| - 1] == tr.calls[|tr.calls| - 1];
    var init := p.calls[..|p.calls| - 1];
    var rest := tr.calls[..|tr.calls| - 1];
    forall i | 0 <= i < |init| && init[i].Exec? ensures o.exec(t0 + i, init[i].command).Ok? {
      if i >= |calls| {
        assert init[i] == rest[i - |calls|];
      } else {
        assert init[i] == calls[i];
      }
    }
  }

  /**
   * In the working copy: `show-ref` comes first, only git runs, the chain is fail-fast, and
   * `git fetch --tags` runs exactly when `show-ref` succeeded without listing the tag.
   */
  lemma WorkingCopySpec(o: Oracle, t: nat, treeish: string, tmp: Path)
    ensures var tr := WorkingCopyTrace(o, t, treeish, tmp);
      var dir := CloneDir(tmp);
      var listing := o.exec(t, ShowRef(dir));
      && tr.calls[0] == Exec(ShowRef(dir))
      && (forall i :: 0 <= i < |tr.calls| ==> tr.calls[i].Exec?)
      && FailFast(o, t, tr) && ArchivedOnSuccess(o, t, tr, treeish, tmp)
      && (Exec(FetchTags(dir)) in tr.calls <==> listing.Ok? && NeedsTagFetch(listing.value, treeish))
  {
    var dir := CloneDir(tmp);
    var listing := o.exec(t, ShowRef(dir));
    if listing.Ok? {
      if NeedsTagFetch(listing.value, treeish) {
        var before := [Exec(ShowRef(dir)), Exec(FetchTags(dir))];
        if o.exec(t + 1, FetchTags(dir)).Ok? {
          PrependKeeps(o, t, before, ArchiveStep(o, t + 2, treeish, tmp), treeish, tmp);
        }
      } else {
        var before := [Exec(ShowRef(dir))];
        PrependKeeps(o, t, before, ArchiveStep(o, t + 1, treeish, tmp), treeish, tmp);
        assert WorkingCopyTrace(o, t, treeish, tmp).calls == before + [Exec(ArchiveTar(treeish, dir))];
      }
    }
  }

  /**
   * `_getArchiveGit`: the clone is shallow exactly when the treeish is a listed branch or tag;
   * `git fetch --tags` runs exactly when clone and `show-ref` succeeded and the listing lacks
   * `refs/tags/<treeish>`; only git runs after the temporary directory is made; a success is
   * `<tmp>/repo.tar` after a successful `git archive` of the treeish; a failure is the failure
   * of the last call made.
   */
  lemma GitTraceSpec(o: Oracle, t: nat, repo: string, treeish: string, refs: seq<string>)
    ensures var tr := GitTrace(o, t, repo, treeish, refs);
      var tmp := o.makeTemp(t);
      var clone := Clone(UseShallowClone(refs, treeish), repo, CloneDir(tmp));
      && |tr.calls| >= 2 && tr.calls[0] == MakeTemp && tr.calls[1] == Exec(clone)
      && (clone.shallow <==> ("refs/heads/" + treeish in refs || "refs/tags/" + treeish in refs))
      && (forall i :: 1 <= i < |tr.calls| ==> tr.calls[i].Exec?)
      && (Exec(FetchTags(CloneDir(tmp))) in tr.calls <==>
           && o.exec(t + 1, clone).Ok?
           && o.exec(t + 2, ShowRef(CloneDir(tmp))).Ok?
           && NeedsTagFetch(o.exec(t + 2, ShowRef(CloneDir(tmp))).value, treeish))
      && FailFast(o, t, tr) && ArchivedOnSuccess(o, t, tr, treeish, tmp)
  {
    ShallowIffKnownRef(refs, treeish);
    var tmp := o.makeTemp(t);
    var rest := CloneTrace(o, t + 1, repo, treeish, refs, tmp);
    CloneTraceSpec(o, t + 1, repo, treeish, refs, tmp);
    PrependKeeps(o, t, [MakeTemp], rest, treeish, tmp);
    PrependMakeTemp(rest.calls, Exec(FetchTags(CloneDir(tmp))));
  }

  /** After the temporary directory: the clone first, then only git, fail-fast. */
  lemma CloneTraceSpec(o: Oracle, t: nat, repo: string, treeish: string, refs: seq<string>, tmp: Path)
    ensures var tr := CloneTrace(o, t, repo, treeish, refs, tmp);
      var clone := Clone(UseShallowClone(refs, treeish), repo, CloneDir(tmp));
      && |tr.calls| >= 1 && tr.calls[0] == Exec(clone)
      && (forall i :: 0 <= i < |tr.calls| ==> tr.calls[i].Exec?)
      && (Exec(FetchTags(CloneDir(tmp))) in tr.calls <==>
           && o.exec(t, clone).Ok?
           && o.exec(t + 1, ShowRef(CloneDir(tmp))).Ok?
           && NeedsTagFetch(o.exec(t + 1, ShowRef(CloneDir(tmp))).value, treeish))
      && FailFast(o, t, tr) && ArchivedOnSuccess(o, t, tr, treeish, tmp)
  {
    var clone := Clone(UseShallowClone(refs, treeish), repo, CloneDir(tmp));
    if o.exec(t, clone).Ok? {
      var rest := WorkingCopyTrace(o, t + 1, treeish, tmp);
      WorkingCopySpec(o, t + 1, treeish, tmp);
      PrependKeeps(o, t, [Exec(clone)], rest, treeish, tmp);
      PrependExec(clone, rest.calls, Exec(FetchTags(CloneDir(tmp))));
    }
  }

  /** A call after the leading `MakeTemp` is at the same place, one further on. */
  lemma PrependMakeTemp(calls: seq<Call>, c: Call)
    requires c != MakeTemp
    ensures (c in [MakeTemp] + calls <==> c in calls)
    ensures forall i :: 1 <= i < |[MakeTemp] + calls| ==> ([MakeTemp] + calls)[i] == calls[i - 1]
  {
  }

  /** Behind a leading clone, the other calls are those of the rest. */
  lemma PrependExec(clone: Command, calls: seq<Call>, c: Call)
    requires clone.Clone? && c != Exec(clone)
    ensures (c in [Exec(clone)] + calls <==> c in calls)
    ensures forall i :: 1 <= i < |[Exec(clone)] + calls| ==> ([Exec(clone)] + calls)[i] == calls[i - 1]
  {
  }

  /**
   * `getArchive` resolves with the treeish `ResolveTreeish` gives (the matched tag for a
   * range, the treeish itself otherwise); a failed ref query or an unmatched range rejects
   * before any further call, the latter with the complete ref list.
   */
  lemma ArchiveTraceResolves(lib: Library, o: Oracle, t: nat, repo: string, treeish: string)
    ensures var tr := ArchiveTrace(lib, o, t, repo, treeish);
      && (tr.result.Ok? ==>
           && RefsAnswer(o, repo).Ok?
           && ResolveTreeish(lib, repo, treeish, RefsAnswer(o, repo).value) == Ok(tr.result.value.treeish))
      && (!lib.validRange(treeish) && tr.result.Ok? ==> tr.result.value.treeish == treeish)
      && (RefsAnswer(o, repo).Err? ==> tr == Trace([], Err(RefsAnswer(o, repo).error)))
      && (RefsAnswer(o, repo).Ok? && lib.validRange(treeish)
          && (forall c :: c in Candidates(RefsAnswer(o, repo).value) ==> !lib.satisfies(c.version, treeish)) ==>
           tr == Trace([], Err(NoMatchingVersion(repo, treeish, RefsAnswer(o, repo).value))))
  {
    var refs := RefsAnswer(o, repo);
    if refs.Ok? {
      ResolveTreeishSpec(lib, repo, treeish, refs.value);
    }
  }

  /**
   * The GitHub backend for the resolved `tag`: the temporary directory and one tarball download,
   * resolving with the downloaded file exactly when the download succeeds.
   */
  ghost predicate ViaGithub(o: Oracle, t: nat, repo: string, tag: string, tr: Trace<Archive>) {
    var download := o.apiTarball(t + 1, GithubShortName(repo), tag);
    && tr.calls == [MakeTemp, ApiTarball(GithubShortName(repo), tag)]
    && (tr.result.Ok? <==> download.Ok?)
    && (tr.result.Ok? ==> tr.result.value == Archive(Resolve(o.makeTemp(t), download.value), tag))
    && (tr.result.Err? ==> download == Err(tr.result.error))
  }

  /**
   * The git backend for the resolved `tag`: the temporary directory, then only git; it resolves
   * exactly when the last command succeeds, which is then `git archive` into `<tmp>/repo.tar`,
   * and otherwise rejects with that command's error.
   */
  ghost predicate ViaGit(o: Oracle, t: nat, tag: string, tr: Trace<Archive>) {
    var tmp := o.makeTemp(t);
    && |tr.calls| >= 2 && tr.calls[0] == MakeTemp
    && (forall i :: 1 <= i < |tr.calls| ==> tr.calls[i].Exec?)
    && ExecsSucceed(o, t, tr.calls[..|tr.calls| - 1])
    && (tr.result.Ok? <==> o.exec(t + |tr.calls| - 1, tr.calls[|tr.calls| - 1].command).Ok?)
    && (tr.result.Err? ==> o.exec(t + |tr.calls| - 1, tr.calls[|tr.calls| - 1].command) == Err(tr.result.error))
    && (tr.result.Ok? ==>
         && tr.calls[|tr.calls| - 1] == Exec(ArchiveTar(tag, CloneDir(tmp)))
         && tr.result.value == Archive(tmp + ["repo.tar"], tag))
  }

  /** The refs are known and the treeish resolves against them. */
  predicate Resolves(lib: Library, o: Oracle, repo: string, treeish: string) {
    RefsAnswer(o, repo).Ok? && ResolveTreeish(lib, repo, treeish, RefsAnswer(o, repo).value).Ok?
  }

  /**
   * `getArchive` makes a call exactly when the treeish resolves, and then runs the backend its
   * repo selects: a "github" repo downloads one tarball through the API, any other is cloned
   * and archived with git.
   */
  lemma ArchiveTraceBackend(lib: Library, o: Oracle, t: nat, repo: string, treeish: string)
    ensures var tr := ArchiveTrace(lib, o, t, repo, treeish);
      var tag := ResolvedTag(lib, o, repo, treeish);
      && (tr.calls != [] <==> Resolves(lib, o, repo, treeish))
      && (Resolves(lib, o, repo, treeish) && Contains(repo, "github") ==> ViaGithub(o, t, repo, tag, tr))
      && (Resolves(lib, o, repo, treeish) && !Contains(repo, "github") ==> ViaGit(o, t, tag, tr))
  {
    if Resolves(lib, o, repo, treeish) {
      if Contains(repo, "github") {
        ArchiveViaGithub(lib, o, t, repo, treeish);
      } else {
        ArchiveViaGit(lib, o, t, repo, treeish);
      }
    }
  }

  lemma ArchiveViaGithub(lib: Library, o: Oracle, t: nat, repo: string, treeish: string)
    requires Resolves(lib, o, repo, treeish) && Contains(repo, "github")
    ensures ViaGithub(o, t, repo, ResolvedTag(lib, o, repo, treeish), ArchiveTrace(lib, o, t, repo, treeish))
  {
    var tag := ResolveTreeish(lib, repo, treeish, RefsAnswer(o, repo).value).value;
    var g := GithubTrace(o, t, repo, tag);
    assert ArchiveTrace(lib, o, t, repo, treeish) ==
      Trace(g.calls, match g.result case Err(e) => Err(e) case Ok(p) => Ok(Archive(p, tag)));
  }

  lemma ArchiveViaGit(lib: Library, o: Oracle, t: nat, repo: string, treeish: string)
    requires Resolves(lib, o, repo, treeish) && !Contains(repo, "github")
    ensures ViaGit(o, t, ResolvedTag(lib, o, repo, treeish), ArchiveTrace(lib, o, t, repo, treeish))
  {
    var refs := RefsAnswer(o, repo).value;
    var tag := ResolveTreeish(lib, repo, treeish, refs).value;
    var g := GitTrace(o, t, repo, tag, refs);
    GitTraceEnds(o, t, repo, tag, refs);
    assert ArchiveTrace(lib, o, t, repo, treeish) ==
      Trace(g.calls, match g.result case Err(e) => Err(e) case Ok(p) => Ok(Archive(p, tag)));
  }

  /**
   * `_getArchiveGit` starts with the temporary directory and then runs only git; it resolves
   * exactly when its last command succeeds, which is then the `git archive` into `<tmp>/repo.tar`,
   * and otherwise rejects with that command's error.
   */
  lemma GitTraceEnds(o: Oracle, t: nat, repo: string, treeish: string, refs: seq<string>)
    ensures var g := GitTrace(o, t, repo, treeish, refs);
      var tmp := o.makeTemp(t);
      && |g.calls| >= 2 && g.calls[0] == MakeTemp
      && (forall i :: 1 <= i < |g.calls| ==> g.calls[i].Exec?)
      && ExecsSucceed(o, t, g.calls[..|g.calls| - 1])
      && (g.result.Ok? <==> o.exec(t + |g.calls| - 1, g.calls[|g.calls| - 1].command).Ok?)
      && (g.result.Err? ==> o.exec(t + |g.calls| - 1, g.calls[|g.calls| - 1].command) == Err(g.result.error))
      && (g.result.Ok? ==>
           && g.calls[|g.calls| - 1] == Exec(ArchiveTar(treeish, CloneDir(tmp)))
           && g.result.value == tmp + ["repo.tar"])
  {
    GitTraceSpec(o, t, repo, treeish, refs);
  }

  /** The treeish `getArchive` fetches, when the refs are known and the treeish resolves. */
  function ResolvedTag(lib: Library, o: Oracle, repo: string, treeish: string): string {
    match RefsAnswer(o, repo)
    case Err(_) => treeish
    case Ok(refs) =>
      match ResolveTreeish(lib, repo, treeish, refs)
      case Err(_) => treeish
      case Ok(tag) => tag
  }

  /**
   * `util`'s module state. `refCache` is `_refCache`; `queried` lists the repos whose refs
   * were queried, in order, and is ghost bookkeeping for "at most one query per repo".
   */
  class Util {
    const lib: Library
    const host: Host
    var refCache: map<string, Result<seq<string>>>
    ghost var queried: seq<string>

    /**
     * Each repo was queried at most once, the cache holds exactly the queried repos, and each
     * entry is the backend's answer for its repo (failures are cached too).
     */
    ghost predicate Valid()
      reads this
    {
      && (forall i, j :: 0 <= i < j < |queried| ==> queried[i] != queried[j])
      && (forall r :: r in refCache <==> r in queried)
      && (forall r :: r in refCache ==> refCache[r] == RefsAnswer(host.oracle, r))
    }

    /** The state `util.refs` acts on. */
    ghost function State(): RefsState
      reads this, host
    {
      RefsState(host.log, refCache, queried)
    }

    constructor (lib: Library, host: Host)
      ensures Valid() && this.lib == lib && this.host == host
      ensures refCache == map[] && queried == []
    {
      this.lib := lib;
      this.host := host;
      refCache := map[];
      queried := [];
    }

    /** After `util.refs(repo)`: `repo` is cached, and recorded as queried if it was not cached. */
    twostate predicate RefsCached(repo: string)
      reads this
    {
      && refCache == old(refCache)[repo := RefsAnswer(host.oracle, repo)]
      && queried == (if repo in old(refCache) then old(queried) else old(queried) + [repo])
    }

    /** `util.refs(repo)`: the cached answer, or a new backend query whose answer is cached. */
    method Refs(repo: string) returns (r: Result<seq<string>>)
      requires Valid()
      modifies this, host
      ensures Valid() && RefsCached(repo) && r == RefsAnswer(host.oracle, repo)
      ensures host.log == AfterRefs(old(host.log), old(refCache), repo) && host.disk == old(host.disk)
    {
      if repo in refCache {
        r := refCache[repo];
        assert refCache == refCache[repo := r];
        return;
      }
      if BackendFor(repo) == GithubApi {
        r := host.GetApiRefs(GithubShortName(repo));
      } else {
        var out := host.RunLsRemote(repo);
        r := if out.Ok? then Ok(ParseLsRemote(out.value)) else Err(out.error);
      }
      assert r == RefsAnswer(host.oracle, repo) && repo !in queried;
      refCache := refCache[repo := r];
      queried := queried + [repo];
    }

    /**
     * `util.needsUpdate(current, range, repo)`: a non-range answers false with no query; a
     * range queries the refs and applies `NeedsUpdateDecision`.
     */
    method NeedsUpdate(current: Option<string>, range: string, repo: string) returns (r: Result<bool>)
      requires Valid()
      modifies this, host
      ensures Valid()
      ensures r == NeedsUpdateDecision(lib, current, range, RefsAnswer(host.oracle, repo))
      ensures !lib.validRange(range) ==>
        refCache == old(refCache) && queried == old(queried) && host.log == old(host.log) && host.disk == old(host.disk)
      ensures lib.validRange(range) ==>
        RefsCached(repo) && host.log == AfterRefs(old(host.log), old(refCache), repo) && host.disk == old(host.disk)
    {
      if !lib.validRange(range) {
        return Ok(false);
      }
      var refs := Refs(repo);
      r := NeedsUpdateDecision(lib, current, range, refs);
    }

    /**
     * `_getArchiveGit(repo, treeish)`, following `GitTrace`. Its own `util.refs(repo)` is a
     * cache hit, since `getArchive` has just queried the refs: they come in as `refs`.
     */
    method GetArchiveGit(repo: string, treeish: string, refs: seq<string>) returns (r: Result<Path>)
      modifies host
      ensures var tr := GitTrace(host.oracle, |old(host.log)|, repo, treeish, refs);
        host.log == old(host.log) + tr.calls && r == tr.result
      ensures host.disk == old(host.disk)
    {
      ghost var log0 := host.log;
      var tmp := host.MakeTempDir();
      r := CloneAndArchive(repo, treeish, refs, tmp);
      ghost var rest := CloneTrace(host.oracle, |log0| + 1, repo, treeish, refs, tmp).calls;
      assert log0 + [MakeTemp] + rest == log0 + ([MakeTemp] + rest);
    }

    /** The clone into `<tmp>/repo` and everything after it, following `CloneTrace`. */
    method CloneAndArchive(repo: string, treeish: string, refs: seq<string>, tmp: Path) returns (r: Result<Path>)
      modifies host
      ensures var tr := CloneTrace(host.oracle, |old(host.log)|, repo, treeish, refs, tmp);
        host.log == old(host.log) + tr.calls && r == tr.result
      ensures host.disk == old(host.disk)
    {
      ghost var log0 := host.log;
      var clone := Clone(UseShallowClone(refs, treeish), repo, CloneDir(tmp));
      var cloned := host.Run(clone);
      if cloned.Err? {
        return Err(cloned.error);
      }
      r := WorkingCopy(tmp, treeish);
      ghost var rest := WorkingCopyTrace(host.oracle, |log0| + 1, treeish, tmp).calls;
      assert log0 + [Exec(clone)] + rest == log0 + ([Exec(clone)] + rest);
    }

    /** The steps in the working copy `<tmp>/repo`, following `WorkingCopyTrace`. */
    method WorkingCopy(tmp: Path, treeish: string) returns (r: Result<Path>)
      modifies host
      ensures var tr := WorkingCopyTrace(host.oracle, |old(host.log)|, treeish, tmp);
        host.log == old(host.log) + tr.calls && r == tr.result
      ensures host.disk == old(host.disk)
    {
      ghost var log0 := host.log;
      var dir := CloneDir(tmp);
      var listing := host.Run(ShowRef(dir));
      if listing.Err? {
        return Err(listing.error);
      }
      ghost var calls := [Exec(ShowRef(dir))];
      if NeedsTagFetch(listing.value, treeish) {
        var fetched := host.Run(FetchTags(dir));
        if fetched.Err? {
          return Err(fetched.error);
        }
        calls := calls + [Exec(FetchTags(dir))];
      }
      assert host.log == log0 + calls;
      var archived := host.Run(ArchiveTar(treeish, dir));
      if archived.Err? {
        return Err(archived.error);
      }
      r := Ok(tmp + ["repo.tar"]);
    }

    /** `_getArchiveGithub(repo, treeish)`, following `GithubTrace`. */
    method GetArchiveGithub(repo: string, treeish: string) returns (r: Result<Path>)
      modifies host
      ensures var tr := GithubTrace(host.oracle, |old(host.log)|, repo, treeish);
        host.log == old(host.log) + tr.calls && r == tr.result
      ensures host.disk == old(host.disk)
    {
      var tmp := host.MakeTempDir();
      var name := GithubShortName(repo);
      var filename := host.GetTarball(name, treeish);
      r := if filename.Ok? then Ok(Resolve(tmp, filename.value)) else Err(filename.error);
    }

    /**
     * `util.getArchive(repo, treeish)`: the refs (cached or queried), the treeish resolved
     * against them, then the backend fetch, following `ArchiveTrace`.
     */
    method GetArchive(repo: string, treeish: string) returns (r: Result<Archive>)
      requires Valid()
      modifies this, host
      ensures Valid() && RefsCached(repo) && host.disk == old(host.disk)
      ensures var mid := AfterRefs(old(host.log), old(refCache), repo);
        var tr := ArchiveTrace(lib, host.oracle, |mid|, repo, treeish);
        host.log == mid + tr.calls && r == tr.result
    {
      var refs := Refs(repo);
      if refs.Err? {
        return Err(refs.error);
      }
      var resolved := ResolveTreeish(lib, repo, treeish, refs.value);
      if resolved.Err? {
        return Err(resolved.error);
      }
      var tarball;
      if BackendFor(repo) == GithubApi {
        tarball := GetArchiveGithub(repo, resolved.value);
      } else {
        tarball := GetArchiveGit(repo, resolved.value, refs.value);
      }
      r := if tarball.Ok? then Ok(Archive(tarball.value, resolved.value)) else Err(tarball.error);
    }
  }
}
