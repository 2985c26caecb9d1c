# npm-gitdeps in Dafny

A model of the decision logic of `npm-gitdeps`. The tool installs the `gitCloneDependencies`
of a `package.json`: for each entry (a repository URL, or an `<owner>/<name>` shorthand for
GitHub, mapped to a treeish) it decides whether the copy under `components/<name>` is stale. It
resolves a semver range against the repository's tags, fetches a tar archive of the resolved
treeish, extracts it into the destination, flattens a single wrapper folder, and records the
repository and treeish in a `.npm-git-clone` file so that the next run can skip it.

Archives come from one of two backends:

- The GitHub tarball API, for any repository URL containing "github".
- A clone into a temporary directory, for all other repositories. The clone is shallow exactly
  when the treeish is a listed branch or tag. `git fetch --tags` runs when the clone lacks the
  tag, and `git archive` produces the tarball.

Ref listings are cached per repository for the whole run, failures included.

The model has these modules:

- `Common`: results and errors.
- `Text`: `split`, `pop`, `trim` and suffix removal on `seq<char>`.
- `Semver`: versions as numeric triples. The range library is given as two functions.
- `Paths`: `path.resolve`, `join`, `relative`, `basename` and `extname` on segment sequences, plus `util.findup`.
- `GitRefs`: `githubShortName`, the parsing of `git ls-remote` and `git show-ref`, the backend choice, and the shallow-clone and tag-fetch decisions.
- `VersionMatch`: candidate extraction, the stable newest-first sort, `semverToTag`, treeish resolution and the staleness rule.
- `Host`: the outside world. An oracle answers, and a log records each call.
- `Util`: a class holding the ref cache, with the archive backends as methods proved against trace functions.
- `Gitdeps`: each stage of `run`, as functions of the disk.
- `Pipeline`: the stages as methods, `run` itself, and the re-run lemmas.

The central proved property is a metadata round trip. After a completed run, checking the same
manifest again, against the same refs, on the disk the run left keeps no dependency, under the
condition that the destinations are distinct (`Pipeline.CompletedRunIsStable`). A second run
then completes with no report line and leaves the disk alone (`Pipeline.RunIsStable`).

`run` is a function of its stages (`Pipeline.RunAll`). It aborts exactly when a check decision,
a `getArchive`, an extraction or the write of a `.npm-git-clone` record fails, with the first
such failure's error and no report line, and completes otherwise (`Pipeline.RunOutcomeSpec`).
A record cannot be written where the extraction left a `.npm-git-clone` directory. The ref cache, the log of calls and the list of
queried repos are carried from stage to stage, and a run only adds to them
(`Pipeline.RunExtends`). No repository's refs are queried twice in a run: `Pipeline.Run` keeps
the invariant `Util.Util.Valid`, under which the queried list has no repeats and holds exactly
the cached repos, and a cached repo makes no call (`Util.StepRefsSpec`, `Util.Util.Refs`).

The oracle's answers work as follows:

- Ref listings are fixed for a run.
- Every other answer (subprocess output, temporary directory, download, extraction) is indexed
  by the call's position in the log. Two identical calls at different moments may therefore get
  different answers.

The code behaves as follows where a reader might expect otherwise:

- The stages are run stage by stage over all dependencies, each stage finishing for every
  dependency before the next starts (`Chainable.map`/`filterSeries`/`mapSeries`). They are not
  run dependency by dependency.
- Skipped dependencies are not reported. `report` lists only the dependencies fetched in this run.
- The tag capture `refs/tags/(.*\d+)` stops at the last digit. So `refs/tags/v2.0.0-beta` yields
  the tag `v2.0.0`, which need not be an existing ref.
- The errors are whatever the failing call rejected with, not a dedicated error taxonomy.
- A missing `package.json` is an exception thrown out of `run` (exit status 1).

Inside `_getArchiveGit`, the second `util.refs(repo)` always hits the cache, because `getArchive`
queried the same repository just before. `Util.Util.GetArchiveGit` therefore takes those refs as
a parameter.

## Model

| member | source | states |
|---|---|---|
| Paths.Parent | src/util.js:46-47 | `path.resolve(dir, '..')` drops the last segment; the parent equals the path exactly at the root, which ends the search |
| Paths.JoinPlain | src/npm-gitdeps.js:34 | Joining or resolving a plain name appends exactly that segment |
| Paths.LastIndexOf | src/npm-gitdeps.js:71 | The index found holds the character and none follows it; none found means the character does not occur |
| Paths.CommonPrefix | src/npm-gitdeps.js:102 | The two paths agree up to the returned length and differ just after it |
| Paths.RelativeBelow | src/npm-gitdeps.js:102 | `path.relative(from, from/rest)` is `rest` joined with '/' |
| Paths.FindupNearest | src/util.js:43-48 | `findup` returns the file in the deepest directory of the chain that holds it, and nothing when no directory up to the root holds it |
| Text.SplitJoin | src/util.js:59 | Joining the split pieces gives the input back and no piece contains the separator |
| Text.SplitLength | src/util.js:59 | `split('\n')` gives one more piece than there are newlines |
| Text.LastFieldSpec | src/util.js:60 | `line.split(sep).pop()` is the text after the last separator, or the whole line when it has none |
| Text.LastFieldAfter | src/npm-gitdeps.js:33 | After a separator followed by separator-free text, the last piece is that text |
| Text.TrimStart | src/npm-gitdeps.js:33 | Only JavaScript white space is removed from the front, and the result does not start with it |
| Text.TrimEnd | src/npm-gitdeps.js:33 | Only JavaScript white space is removed from the back, and the result does not end with it |
| Text.TrimSpec | src/npm-gitdeps.js:33 | `trim()` keeps a contiguous middle part, with only white space before and after it |
| Text.TrimEdges | src/npm-gitdeps.js:33 | The trimmed name neither starts nor ends with white space |
| Text.LineLen | src/util.js:116 | `.` matches up to, and not including, the first JavaScript line terminator |
| Semver.LessEqTotal | src/util.js:131-133 | The `rcompare` order on version triples is total and antisymmetric |
| GitRefs.FirstGithubCom | src/util.js:52 | The leftmost position where `github.com/` matches (the dot matching any non-terminator), with no match before it |
| GitRefs.GithubShortNameSpec | src/util.js:51-53 | For a repo on one line: with no match of `github.com/` the repo only loses a final `.git`; otherwise the short name is what follows the leftmost match, less one final `.git` |
| GitRefs.ExpandedShortName | src/util.js:51-53 | The short name of `git://github.com/<key>.git` is `<key>` again |
| GitRefs.ParseLinesSpec | src/util.js:56-63 | The `ls-remote` parse has one element per line, each being the text after that line's last tab |
| GitRefs.ShowRefLine | src/util.js:188-190 | A `<sha> <ref>` line of `git show-ref` yields `<ref>` |
| GitRefs.ShallowIffKnownRef | src/util.js:164-177 | The clone is shallow exactly when `refs/heads/<treeish>` or `refs/tags/<treeish>` is among the refs |
| GitRefs.ListedTagNotFetched | src/util.js:187-194 | When `show-ref` lists `refs/tags/<treeish>` on a line, no tag fetch happens |
| VersionMatch.LastDigitBefore | src/util.js:116 | The last digit before a position, with no digit after it; none means a digit-free prefix |
| VersionMatch.TagCaptureSound | src/util.js:116-120 | A capture is the text after some `refs/tags/`, on one line, ending in a digit |
| VersionMatch.TagOfPlainRef | src/util.js:116-120 | For `refs/tags/<t>` the tag is `t` up to its last digit (`v1.2.3^{}` gives `v1.2.3`), and a digit-free `t` gives no tag |
| VersionMatch.DigitRun | src/util.js:121 | The run of digits at a position is maximal |
| VersionMatch.FirstTripleLeftmost | src/util.js:121-125 | The version is read at the leftmost position where `\d+\.\d+\.\d+` matches, and there is none exactly when it matches nowhere |
| VersionMatch.CandidatesFromRefs | src/util.js:114-130 | Every candidate comes from a ref, and every ref yielding a candidate is represented |
| VersionMatch.SortDescSpec | src/util.js:131-133 | The sort is newest first and a permutation of the candidates |
| VersionMatch.FirstSatisfyingSpec | src/util.js:134-139 | `filter(...)[0]` is nothing exactly when no candidate satisfies the range; otherwise it is the first candidate that does, no earlier one satisfying it |
| VersionMatch.BestSpec | src/util.js:131-139 | The reference winner is absent exactly when nothing satisfies the range; otherwise it satisfies the range, nothing satisfying is newer, and ties go to the earliest |
| VersionMatch.SemverToTagSpec | src/util.js:113-141 | `semverToTag` returns the newest satisfying candidate (ties: earliest ref), and nothing exactly when no candidate satisfies the range, in particular for no refs |
| VersionMatch.SemverToTagIsNewest | src/util.js:113-141 | Whenever some ref yields a satisfying version, the match exists and is at least as new |
| VersionMatch.ResolveTreeishSpec | src/util.js:249-256 | A non-range treeish is kept; a range resolves to the tag of a satisfying candidate captured in one of the refs, and fails with the full ref list exactly when nothing satisfies it |
| VersionMatch.NeedsUpdateSpec | src/util.js:144-155 | A non-range is never stale; for a range, a failed query is passed on, no satisfying tag is a failure exactly when no candidate satisfies the range, and otherwise the result is whether the best tag differs from the stored treeish, a missing one counting as different |
| Host.Host.ExtractInto | src/npm-gitdeps.js:75-82 | Extraction replaces the destination with what the extraction left, even on failure, and logs the call |
| Util.WorkingCopySpec | src/util.js:184-198 | In the working copy, `show-ref` runs first and only git runs; the chain stops at its first failure (every call before the last succeeded, and a failure is the last call's); `fetch --tags` runs exactly when `show-ref` succeeded without the tag; a success is a successful `git archive` |
| Util.CloneTraceSpec | src/util.js:179-198 | From the clone on, only git runs, the clone first; the chain stops at its first failure (every call before the last succeeded, and a failure is the last call's); `fetch --tags` exactly after a successful clone and `show-ref` lacking the tag |
| Util.GitTraceSpec | src/util.js:158-203 | `_getArchiveGit` makes the temporary directory, then a clone that is shallow exactly for a listed branch or tag, then only git; a success is `<tmp>/repo.tar` after a successful `git archive` of the treeish; a failure is that of the last call made |
| Util.GitTraceEnds | src/util.js:158-203 | `_getArchiveGit` resolves exactly when its last command succeeds, that command then being `git archive` into `<tmp>/repo.tar`, and otherwise rejects with the last command's error |
| Util.ArchiveTraceResolves | src/util.js:245-273 | `getArchive` resolves with the treeish `ResolveTreeish` gives; a failed ref query or an unmatched range rejects before any further call, the latter naming all refs |
| Util.ArchiveTraceBackend | src/util.js:245-273 | `getArchive` makes a call exactly when the refs are known and the treeish resolves; then a "github" repo makes exactly the temporary directory and one tarball download, resolving with the downloaded file exactly when the download succeeds; any other repo makes the temporary directory and then only git, resolving with `<tmp>/repo.tar` exactly when its last command, `git archive`, succeeds, and otherwise rejecting with the error of its last command |
| Util.StepRefsSpec | src/util.js:96-110 | One `util.refs` on a ref state: the repo ends cached with its backend answer and no other entry changes; a cached repo adds no call and no queried repo; an uncached one adds exactly its query call and itself to the queried list; the log, the queried list and the cached set only grow |
| Util.Util.constructor | src/util.js:96 | The cache starts empty |
| Util.Util.Refs | src/util.js:96-110 | `util.refs` returns the backend's answer; a cached repo makes no call; an uncached one makes exactly one query and is cached, failures included; each repo is queried at most once |
| Util.Util.NeedsUpdate | src/util.js:144-155 | A non-range answers false with no call and no cache change; a range goes through `util.refs` and `NeedsUpdateDecision` |
| Util.Util.GetArchiveGit | src/util.js:158-203 | Its log and result are those of `GitTrace` |
| Util.Util.CloneAndArchive | src/util.js:171-203 | Its log and result are those of `CloneTrace` |
| Util.Util.WorkingCopy | src/util.js:184-198 | Its log and result are those of `WorkingCopyTrace` |
| Util.Util.GetArchiveGithub | src/util.js:208-240 | A temporary directory, then the tarball download; resolves with the file in the temporary directory |
| Util.Util.GetArchive | src/util.js:245-273 | `util.refs` first, then the log and result of `ArchiveTrace`; the disk is untouched |
| Gitdeps.DepNameSpec | src/npm-gitdeps.js:33 | The dependency name never holds a '/'; for a key without '/' it is the trimmed key minus a final `.git` |
| Gitdeps.ExpandRepoSpec | src/npm-gitdeps.js:37-39 | A key with exactly one '/' becomes `git://github.com/<key>.git`, served by the GitHub API under the short name `<key>`; any other key is kept |
| Gitdeps.DestSpec | src/npm-gitdeps.js:34 | A plain name lands in `<project>/components/<name>` |
| Gitdeps.GatherShorthand | src/npm-gitdeps.js:31-47 | `<owner>/<name>` is fetched from `git://github.com/<owner>/<name>.git` through the API under `<owner>/<name>`, is named after `<name>`, and lands in `components/<name>` |
| Gitdeps.GatherAllSpec | src/npm-gitdeps.js:30-47 | One dependency per manifest entry, in order: its treeish is the entry's value, its name has no '/' and is the trimmed key less `.git` for a key without '/'; a key with one '/' is fetched from `git://github.com/<key>.git` by the GitHub API under the short name `<key>`, any other key as written; a plain name lands in `components/<name>` |
| Gitdeps.CheckAllSpec | src/npm-gitdeps.js:48-55 | The check stage succeeds exactly when every decision does, keeping the fetched dependencies in manifest order; otherwise it fails with the first failure |
| Gitdeps.UnrecordedIsFetched | src/npm-gitdeps.js:49-52 | A dependency without `.npm-git-clone` is always kept |
| Gitdeps.RecordedDecision | src/npm-gitdeps.js:53-54 | With a readable record (its treeish possibly missing): never refetched for a non-range; for a range, refetched exactly when the best tag differs from the stored treeish |
| Gitdeps.CheckStateExtends | src/npm-gitdeps.js:48-55 | The check stage carries the ref state forward, and leaves it untouched when no dependency has a readable record with a range treeish |
| Gitdeps.FetchStepSpec | src/npm-gitdeps.js:56-66 | One `getArchive`: `util.refs`, then the calls of `ArchiveTrace`; it rejects exactly when the trace does, with its error; a success is the dependency with the resolved treeish and the produced tarball |
| Gitdeps.FetchAllOk | src/npm-gitdeps.js:56-66 | A successful fetch stage has one record per kept dependency, the `k`-th being the success of the `k`-th `getArchive`, made after the first `k` succeeded |
| Gitdeps.FetchAllErr | src/npm-gitdeps.js:56-66 | A rejected fetch stage is rejected, with the same error, by one `getArchive` made after all the earlier ones succeeded |
| Gitdeps.FetchAllErrSticks | src/npm-gitdeps.js:56-66 | Once a prefix of the fetch stage is rejected, the stage ends there, with no further call |
| Gitdeps.FetchAllFrom | src/npm-gitdeps.js:56-66 | Every record of a successful fetch stage keeps its dependency's repo, name and destination, with the treeish `getArchive` resolved from the refs |
| Gitdeps.FetchAllExtends | src/npm-gitdeps.js:56-66 | The fetch stage carries the ref state forward |
| Gitdeps.FlattenSpec | src/npm-gitdeps.js:85-91 | With zero or several visible entries, or one file, nothing changes; with one folder, its visible children move up unchanged, the folder keeps the rest, and every other entry is kept |
| Gitdeps.ShouldGunzipSpec | src/npm-gitdeps.js:71-73 | Gunzip exactly when the basename ends in `.gz` or `.tgz` after at least one character |
| Gitdeps.UntarAll | src/npm-gitdeps.js:67-84 | The untar stage makes at most one extraction per dependency, and all of them when it passes |
| Gitdeps.UntarUpToPass | src/npm-gitdeps.js:67-84 | In a passing untar stage every extraction was made, in order, after the earlier ones passed, and passed |
| Gitdeps.UntarUpToFail | src/npm-gitdeps.js:67-84 | A failed untar stage ends with its last extraction, which failed with the stage's error after every earlier one passed |
| Gitdeps.UntarFailSticks | src/npm-gitdeps.js:67-84 | Once an extraction fails, no further extraction happens |
| Gitdeps.UntarFrame | src/npm-gitdeps.js:67-84 | Extraction touches only the destinations of the dependencies |
| Gitdeps.StoreAllLast | src/npm-gitdeps.js:92-99 | After a passing store stage, a destination holds the record of the last dependency stored there |
| Gitdeps.StoreAllFrame | src/npm-gitdeps.js:92-99 | The store stage touches only the destinations of the dependencies |
| Gitdeps.StoreUpToPass | src/npm-gitdeps.js:92-99 | In a passing store stage every write was made, in order, after the earlier ones succeeded, and succeeded |
| Gitdeps.StoreUpToFail | src/npm-gitdeps.js:92-99 | A failed store stage ends with its last write, which threw the stage's error (`.npm-git-clone` being a directory) after every earlier write succeeded |
| Gitdeps.StoreFailSticks | src/npm-gitdeps.js:92-99 | Once a write throws, no later record is written |
| Gitdeps.RerunSkips | src/npm-gitdeps.js:48-55 | Metadata round trip: a stored record of what was fetched makes the next check decide not to fetch |
| Gitdeps.ReportLineOfGathered | src/npm-gitdeps.js:102 | A gathered dependency reports `<name>@<treeish> components/<name>` |
| Gitdeps.ReportLinesSpec | src/npm-gitdeps.js:100-103 | For records with plain names under `components`, `report` writes one line per record, in order: `<name>@<resolved treeish> components/<name>` |
| Pipeline.GatheredDistinct | src/npm-gitdeps.js:33-34 | Distinct plain names give distinct destinations |
| Pipeline.CheckAllErrSticks | src/npm-gitdeps.js:48-55 | Once the check stage fails on a prefix, it fails the same way on the whole list, with no further ref query |
| Pipeline.FlattenFrame | src/npm-gitdeps.js:85-91 | The flatten stage touches only the destinations of the dependencies |
| Pipeline.SelectedSound | src/npm-gitdeps.js:48-55 | Every kept dependency is one of the gathered ones, with decision "fetch" |
| Pipeline.SelectedComplete | src/npm-gitdeps.js:48-55 | Every gathered dependency with decision "fetch" is kept |
| Pipeline.SelectedDistinct | src/npm-gitdeps.js:48-55 | Kept dependencies have distinct destinations when the gathered ones do |
| Pipeline.NothingKept | src/npm-gitdeps.js:48-55 | When no decision is "fetch", the check keeps nothing |
| Pipeline.KeptRechecked | src/npm-gitdeps.js:92-99 | A kept dependency, once fetched and its record stored by a passing store stage, is not fetched again |
| Pipeline.UnkeptRechecked | src/npm-gitdeps.js:48-55 | A dependency not kept sees the same directory afterwards, so it gets the same decision |
| Pipeline.RerunFetchesNothing | src/npm-gitdeps.js:48-99 | After a passing store stage, re-running the check keeps nothing |
| Pipeline.CompletedRunIsStable | src/npm-gitdeps.js:16-115 | With distinct destinations, a run whose records are all written is a fixed point: the check on the disk it leaves keeps no dependency |
| Pipeline.CheckUpdates | src/npm-gitdeps.js:48-55 | The loop computes `CheckAll`, leaves the disk unchanged, and leaves the ref cache, log and queried repos as `CheckState` says |
| Pipeline.CheckOne | src/npm-gitdeps.js:48-54 | One `checkUpdates(obj)` gives `CheckDecision`; it makes one `util.refs` exactly when a record was read and the treeish is a range, and otherwise changes nothing |
| Pipeline.FetchArchives | src/npm-gitdeps.js:56-66 | The loop's result, ref cache, log and queried repos are those of `FetchAll`, and the disk is unchanged |
| Pipeline.FetchOne | src/npm-gitdeps.js:56-66 | One `getArchive`, with the resulting state and record (resolved treeish and tarball) those of `FetchStep` |
| Pipeline.UntarOne | src/npm-gitdeps.js:67-84 | One extraction advances the untar stage and the log by one job |
| Pipeline.Untar | src/npm-gitdeps.js:67-84 | The loop's disk, status and count are those of `UntarUpTo` over all jobs, and its log holds exactly the extractions made, one per job up to the count |
| Pipeline.Flatten | src/npm-gitdeps.js:85-91 | The loop computes `FlattenAll` and makes no call |
| Pipeline.StoreMetadata | src/npm-gitdeps.js:92-99 | The loop's disk, status and count are those of `StoreAll`, and it makes no call |
| Pipeline.Run | src/npm-gitdeps.js:16-115 | The outcome, the disk and the ref state are those of `RunAll`; the `util` invariant (no repo queried twice, cached exactly when queried) holds after the run |
| Pipeline.Install | src/npm-gitdeps.js:56-103 | The stages after the check follow `InstallAll`: outcome, disk and ref state |
| Pipeline.FetchStageSpec | src/npm-gitdeps.js:56-66 | The fetch stage succeeds exactly when no `getArchive` rejects, and otherwise fails with the first rejection |
| Pipeline.UntarStageSpec | src/npm-gitdeps.js:67-84 | The untar stage passes exactly when every extraction passes, and otherwise fails with the first failure |
| Pipeline.StoreStageSpec | src/npm-gitdeps.js:92-99 | The store stage passes exactly when every write succeeds, and otherwise fails with the first write that throws |
| Pipeline.InstallOutcomeSpec | src/npm-gitdeps.js:56-113 | After the check, a run completes exactly when no `getArchive` rejects, every extraction passes and every record is written; otherwise it aborts with the first rejection, or else the first failed extraction, or else the first write that throws |
| Pipeline.RunOutcomeSpec | src/npm-gitdeps.js:16-113 | A run over a manifest exits 0 exactly when it completes; it completes exactly when every check decision, every `getArchive`, every extraction and every record write succeeds; an abort carries the error of the first failing step of the first failing stage, and reports nothing |
| Pipeline.RunIsStable | src/npm-gitdeps.js:16-115 | With distinct destinations, a second run after a completed one, in any ref state, completes with no report line and leaves the disk as it was |
| Pipeline.RunExtends | src/npm-gitdeps.js:16-115 | A run carries the ref state forward: the cached repos stay cached and the log and the queried repos only grow |

## Left out

- I/O is an oracle: the subprocesses, HTTPS requests, `temp.mkdirSync`, tar extraction and the filesystem are answers of `Host.Oracle`. The disk is a map from destination paths to directory trees.
- Reading and parsing `package.json` is left out. `run` receives what it parses to, with the manifest as its entries in `Object.keys` order. A manifest value that is not a string is not modelled.
- Pipeline.Run: a falsy non-object `gitCloneDependencies` (such as `""` or `0`) is modelled as absent.
- The content of `.npm-git-clone` is an entry, not text: JSON serialisation and parsing are left out. A `Record` (what `storeMetadata` writes) gives its treeish. `Json` stands for any other JSON value but `null`: its `treeish` is read when it is a string, and a missing or non-string `treeish` is `Stored(None)`, which no tag equals. Only a `File` (text that is not JSON, or `null`) or a folder reads as `Unreadable`, and then the run aborts, as the exception thrown by `JSON.parse` or by reading `.treeish` of `null` would make it.
- Util.Util.Refs: the cache is keyed by the repo string. The truthiness test of `_refCache[repo]` on keys like `__proto__` is not modelled.
- The cache's effect is visible only through the log, as "at most one query per repo". Promise coalescing of concurrent queries is not modelled, because the stages run one call at a time.
- `semver.validRange` and `semver.satisfies` are uninterpreted functions. Versions in tags are plain numeric triples. Leading zeros in them are read as numbers.
- Shell quoting of the `git` command lines is not modelled: a command is a datatype, not a string.
- `process.stdout`/`stderr` output is left out, and so is `Date.now` timing. Only the report lines are modelled.
- `_getArchiveGithub`: the redirect and the `content-disposition` parsing are one oracle answer per download. A read-stream error that is not forwarded is not modelled.
- GitRefs.GithubShortNameSpec: stated for repo strings without line terminators; `GithubShortName` itself follows the lazy `.*?` across lines, but no lemma describes that case.
- Gitdeps.DepNameSpec: names that are "", "." or ".." are not given a destination property. `Gitdeps.DestSpec` requires a plain name.
- The disk is flat: a map from each destination path to its directory tree. Destinations nested inside one another, and the names "", "." and ".." that resolve to `components` or above it, are separate keys here, while on a real filesystem they overlap.
- The untar stage works from jobs (tarball, gunzip flag, destination) computed from the fetched records before the loop. The source computes the same gunzip flag inside each `untar(obj)`; the flag is a pure function of the tarball's name.
- Pipeline.StoreMetadata: the only write failure modelled is a `.npm-git-clone` directory (EISDIR). Permission and disk-full errors of `writeFileSync` are not modelled. The stage stops at the first write that throws, with the earlier records written. `Chainable.map` is not part of this model, so whether it still writes later records before the rejection reaches the handler is not modelled.
- The JSON body of the refs API is not modelled: the oracle gives the list of `ref` fields directly.
- Util.Util.GetArchiveGit: its `util.refs(repo)` call is a cache hit, and the cached refs are passed in as a parameter.
