/**
 * `run` of src/npm-gitdeps.js (16-115) as a sequence of stages over the Host: gather,
 * check, fetch, untar, flatten, store, report. Each stage finishes for every dependency
 * before the next one starts, and the first failure aborts the run with exit status 1.
 * The stages are methods proved against the functions of the Gitdeps module, and `Run`
 * against `RunAll`, which strings those functions together. The lemmas here show that a
 * run aborts exactly when some step of some stage fails, with that step's error; that the
 * ref state is carried across all the stages; and that after a completed run, a second run
 * over the same manifest and refs fetches nothing.
 */
module Pipeline {
  import opened Common
  import opened Semver
  import opened Paths
  import opened Host
  import opened Util
  import opened Gitdeps

  /** The fields of `package.json` the run reads. */
  datatype Package = Package(gitCloneDependencies: Option<Manifest>)

  /** How `run` ends. */
  datatype RunOutcome =
    | NoPackageJson
    | NothingToDo
    | Completed(lines: seq<string>)
    | Aborted(error: Error)

  /** A missing `package.json` is thrown out of `run`; a failed stage calls `process.exit(1)`. */
  function ExitStatus(r: RunOutcome): (status: int)
    ensures status == 1 <==> r.NoPackageJson? || r.Aborted?
    ensures status == 0 || status == 1
  {
    match r
    case NoPackageJson => 1
    case Aborted(_) => 1
    case _ => 0
  }

  /** No two dependencies extract into the same directory. */
  predicate DistinctDests(deps: seq<Dep>) {
    forall i, j :: 0 <= i < j < |deps| ==> deps[i].dest != deps[j].dest
  }

  /** Dependencies with pairwise different plain names get pairwise different destinations. */
  lemma GatheredDistinct(projectDir: Path, manifest: Manifest)
    requires forall i :: 0 <= i < |manifest| ==> PlainSegment(DepName(manifest[i].0))
    requires forall i, j :: 0 <= i < j < |manifest| ==> DepName(manifest[i].0) != DepName(manifest[j].0)
    ensures DistinctDests(GatherAll(projectDir, manifest))
  {
    var deps := GatherAll(projectDir, manifest);
    forall i, j | 0 <= i < j < |deps| ensures deps[i].dest != deps[j].dest {
      DestSpec(projectDir, deps[i].name);
      DestSpec(projectDir, deps[j].name);
      assert deps[i].dest[|projectDir| + 1] == deps[i].name;
      assert deps[j].dest[|projectDir| + 1] == deps[j].name;
    }
  }

  /**
   * Once a prefix of the check stage fails, the whole stage fails the same way, and no
   * dependency after it is checked: the ref state is the prefix's.
   */
  lemma {:induction false} CheckAllErrSticks(lib: Library, o: Oracle, disk: Disk, s: RefsState, deps: seq<Dep>, n: nat)
    requires n <= |deps| && CheckAll(lib, o, disk, deps[..n]).Err?
    ensures CheckAll(lib, o, disk, deps) == CheckAll(lib, o, disk, deps[..n])
    ensures CheckState(lib, o, disk, s, deps) == CheckState(lib, o, disk, s, deps[..n])
    decreases |deps|
  {
    if n == |deps| {
      assert deps[..n] == deps;
    } else {
      var init := deps[..|deps| - 1];
      assert init[..n] == deps[..n];
      CheckAllErrSticks(lib, o, disk, s, init, n);
    }
  }

  /** The metadata of a destination depends only on that directory. */
  lemma LookupMetaDirAt(a: Disk, b: Disk, p: Path)
    requires DirAt(a, p) == DirAt(b, p)
    ensures LookupMeta(a, p) == LookupMeta(b, p)
  {
  }

  /** The flatten stage changes only the destinations of the dependencies. */
  lemma {:induction false} FlattenFrame(disk: Disk, fs: seq<Fetched>, p: Path)
    requires forall i :: 0 <= i < |fs| ==> fs[i].dest != p
    ensures DirAt(FlattenAll(disk, fs), p) == DirAt(disk, p)
  {
    if fs != [] {
      FlattenFrame(disk, fs[..|fs| - 1], p);
    }
  }

  /** Every kept dependency comes from `deps` and was decided to be fetched. */
  lemma {:induction false} SelectedSound(lib: Library, o: Oracle, disk: Disk, deps: seq<Dep>)
    ensures forall x :: x in Selected(lib, o, disk, deps) ==> x in deps && CheckDecision(lib, o, disk, x) == Ok(true)
  {
    if deps != [] {
      SelectedSound(lib, o, disk, deps[1..]);
    }
  }

  /** Every dependency decided to be fetched is kept. */
  lemma {:induction false} SelectedComplete(lib: Library, o: Oracle, disk: Disk, deps: seq<Dep>)
    ensures forall x :: x in deps && CheckDecision(lib, o, disk, x) == Ok(true) ==> x in Selected(lib, o, disk, deps)
  {
    if deps != [] {
      var rest := deps[1..];
      SelectedComplete(lib, o, disk, rest);
      forall x | x in deps && CheckDecision(lib, o, disk, x) == Ok(true) ensures x in Selected(lib, o, disk, deps) {
        var k :| 0 <= k < |deps| && deps[k] == x;
        if k > 0 { assert rest[k - 1] == x; }
      }
    }
  }

  /** The kept dependencies keep distinct destinations when `deps` has them. */
  lemma {:induction false} SelectedDistinct(lib: Library, o: Oracle, disk: Disk, deps: seq<Dep>)
    requires DistinctDests(deps)
    ensures DistinctDests(Selected(lib, o, disk, deps))
  {
    if deps != [] {
      var rest := deps[1..];
      assert DistinctDests(rest) by {
        forall i, j | 0 <= i < j < |rest| ensures rest[i].dest != rest[j].dest {
          assert rest[i] == deps[i + 1] && rest[j] == deps[j + 1];
        }
      }
      SelectedDistinct(lib, o, disk, rest);
      SelectedSound(lib, o, disk, rest);
      var s1 := Selected(lib, o, disk, rest);
      if CheckDecision(lib, o, disk, deps[0]) == Ok(true) {
        forall x | x in s1 ensures x.dest != deps[0].dest {
          var k :| 0 <= k < |rest| && rest[k] == x;
          assert deps[k + 1] == x;
        }
        var sel := [deps[0]] + s1;
        forall i, j | 0 <= i < j < |sel| ensures sel[i].dest != sel[j].dest {
          assert sel[j] == s1[j - 1];
          assert sel[j] in s1;
          if i > 0 { assert sel[i] == s1[i - 1]; }
        }
      }
    }
  }

  /** When no decision is to fetch, the check stage succeeds and keeps nothing. */
  lemma {:induction false} NothingKept(lib: Library, o: Oracle, disk: Disk, deps: seq<Dep>)
    requires forall i :: 0 <= i < |deps| ==> CheckDecision(lib, o, disk, deps[i]) == Ok(false)
    ensures CheckAll(lib, o, disk, deps) == Ok([])
    decreases |deps|
  {
    if deps != [] {
      NothingKept(lib, o, disk, deps[..|deps| - 1]);
    }
  }

  /** A kept dependency, once fetched and its record stored, is not fetched again. */
  lemma KeptRechecked(lib: Library, o: Oracle, mid: Disk, kept: seq<Dep>, fetched: seq<Fetched>, j: nat)
    requires DistinctDests(kept) && j < |kept| == |fetched|
    requires forall i :: 0 <= i < |kept| ==> FetchedFrom(lib, o, kept[i], fetched[i])
    requires StoreAll(mid, fetched).status == Pass
    ensures CheckDecision(lib, o, StoreAll(mid, fetched).disk, kept[j]) == Ok(false)
  {
    forall k | j < k < |fetched| ensures fetched[k].dest != fetched[j].dest {
      assert fetched[k].dest == kept[k].dest;
    }
    StoreAllLast(mid, fetched, |fetched|, j);
    RerunSkips(lib, o, StoreAll(mid, fetched).disk, kept[j], fetched[j]);
  }

  /** With distinct destinations, no fetched dependency targets the directory of one not kept. */
  lemma UnkeptNotTargeted(deps: seq<Dep>, kept: seq<Dep>, fetched: seq<Fetched>, i: nat)
    requires DistinctDests(deps) && i < |deps| && deps[i] !in kept
    requires forall x :: x in kept ==> x in deps
    requires |fetched| == |kept| && forall k :: 0 <= k < |fetched| ==> fetched[k].dest == kept[k].dest
    ensures forall k :: 0 <= k < |fetched| ==> fetched[k].dest != deps[i].dest
  {
    forall k | 0 <= k < |fetched| ensures fetched[k].dest != deps[i].dest {
      assert kept[k] in kept;
      var m :| 0 <= m < |deps| && deps[m] == kept[k];
      assert m != i;
    }
  }

  /** A dependency the check did not keep sees the same directory, so the same decision. */
  lemma UnkeptRechecked(lib: Library, o: Oracle, disk0: Disk, mid: Disk, deps: seq<Dep>, fetched: seq<Fetched>, i: nat)
    requires DistinctDests(deps) && i < |deps|
    requires CheckAll(lib, o, disk0, deps).Ok?
    requires deps[i] !in CheckAll(lib, o, disk0, deps).value
    requires |fetched| == |CheckAll(lib, o, disk0, deps).value|
    requires forall k :: 0 <= k < |fetched| ==> fetched[k].dest == CheckAll(lib, o, disk0, deps).value[k].dest
    requires forall p :: (forall k :: 0 <= k < |fetched| ==> fetched[k].dest != p) ==> DirAt(mid, p) == DirAt(disk0, p)
    ensures CheckDecision(lib, o, StoreAll(mid, fetched).disk, deps[i]) == Ok(false)
  {
    var kept := CheckAll(lib, o, disk0, deps).value;
    var d := deps[i];
    CheckAllSpec(lib, o, disk0, deps);
    SelectedSound(lib, o, disk0, deps);
    SelectedComplete(lib, o, disk0, deps);
    assert CheckDecision(lib, o, disk0, d) == Ok(false) by {
      assert d in deps;
    }
    UnkeptNotTargeted(deps, kept, fetched, i);
    StoreAllFrame(mid, fetched, |fetched|, d.dest);
    LookupMetaDirAt(StoreAll(mid, fetched).disk, disk0, d.dest);
  }

  /**
   * Re-running the check after a passing store stage keeps nothing: every dependency that was
   * fetched now has its record, and every other one sees its directory unchanged.
   */
  lemma RerunFetchesNothing(lib: Library, o: Oracle, disk0: Disk, mid: Disk, deps: seq<Dep>, fetched: seq<Fetched>)
    requires DistinctDests(deps)
    requires CheckAll(lib, o, disk0, deps).Ok?
    requires |fetched| == |CheckAll(lib, o, disk0, deps).value|
    requires forall k :: 0 <= k < |fetched| ==> FetchedFrom(lib, o, CheckAll(lib, o, disk0, deps).value[k], fetched[k])
    requires forall p :: (forall k :: 0 <= k < |fetched| ==> fetched[k].dest != p) ==> DirAt(mid, p) == DirAt(disk0, p)
    requires StoreAll(mid, fetched).status == Pass
    ensures CheckAll(lib, o, StoreAll(mid, fetched).disk, deps) == Ok([])
  {
    var kept := CheckAll(lib, o, disk0, deps).value;
    var disk1 := StoreAll(mid, fetched).disk;
    CheckAllSpec(lib, o, disk0, deps);
    SelectedComplete(lib, o, disk0, deps);
    SelectedDistinct(lib, o, disk0, deps);
    forall i | 0 <= i < |deps| ensures CheckDecision(lib, o, disk1, deps[i]) == Ok(false) {
      if deps[i] in kept {
        var j :| 0 <= j < |kept| && kept[j] == deps[i];
        KeptRechecked(lib, o, mid, kept, fetched, j);
      } else {
        UnkeptRechecked(lib, o, disk0, mid, deps, fetched, i);
      }
    }
    NothingKept(lib, o, disk1, deps);
  }

  /**
   * A completed run is stable: with distinct destinations, once every record is stored,
   * checking the same manifest against the same refs on the disk the run left behind keeps no
   * dependency.
   */
  lemma CompletedRunIsStable(lib: Library, o: Oracle, t: nat, disk0: Disk, deps: seq<Dep>, fetched: seq<Fetched>)
    requires DistinctDests(deps)
    requires CheckAll(lib, o, disk0, deps).Ok?
    requires |fetched| == |CheckAll(lib, o, disk0, deps).value|
    requires forall k :: 0 <= k < |fetched| ==> FetchedFrom(lib, o, CheckAll(lib, o, disk0, deps).value[k], fetched[k])
    ensures var mid := FlattenAll(UntarAll(o, t, disk0, fetched).disk, fetched);
      StoreAll(mid, fetched).status == Pass ==> CheckAll(lib, o, StoreAll(mid, fetched).disk, deps) == Ok([])
  {
    var untarred := UntarAll(o, t, disk0, fetched).disk;
    var mid := FlattenAll(untarred, fetched);
    forall p | forall k :: 0 <= k < |fetched| ==> fetched[k].dest != p
      ensures DirAt(mid, p) == DirAt(disk0, p)
    {
      UntarFrame(o, t, disk0, Jobs(fetched), |fetched|, p);
      FlattenFrame(untarred, fetched, p);
    }
    if StoreAll(mid, fetched).status == Pass {
      RerunFetchesNothing(lib, o, disk0, mid, deps, fetched);
    }
  }

  /**
   * The `filterSeries(checkUpdates)` stage: one decision per dependency, in order, stopping
   * at the first failure; the ref cache and the log follow `CheckState`.
   */
  method CheckUpdates(util: Util, deps: seq<Dep>) returns (r: Result<seq<Dep>>)
    requires util.Valid()
    modifies util, util.host
    ensures util.Valid() && util.host.disk == old(util.host.disk)
    ensures r == CheckAll(util.lib, util.host.oracle, old(util.host.disk), deps)
    ensures util.State() == CheckState(util.lib, util.host.oracle, old(util.host.disk), old(util.State()), deps)
  {
    ghost var s0 := util.State();
    ghost var pre: seq<Dep> := [];
    var kept: seq<Dep> := [];
    var i := 0;
    while i < |deps|
      invariant 0 <= i <= |deps| && pre == deps[..i]
      invariant util.Valid() && util.host.disk == old(util.host.disk)
      invariant CheckAll(util.lib, util.host.oracle, util.host.disk, pre) == Ok(kept)
      invariant util.State() == CheckState(util.lib, util.host.oracle, util.host.disk, s0, pre)
    {
      var d := deps[i];
      var decision := CheckOne(util, d);
      CheckSnoc(util.lib, util.host.oracle, util.host.disk, s0, pre, d);
      PrefixSnoc(deps, i);
      pre := pre + [d];
      if decision.Err? {
        CheckAllErrSticks(util.lib, util.host.oracle, util.host.disk, s0, deps, i + 1);
        return Err(decision.error);
      }
      if decision.value {
        kept := kept + [d];
      }
      i := i + 1;
    }
    assert pre == deps;
    r := Ok(kept);
  }

  /**
   * `checkUpdates(obj)`: fetch what has no `.npm-git-clone`, fail on one that cannot be read,
   * otherwise ask `util.needsUpdate` with the stored treeish, which queries the refs for a range.
   */
  method CheckOne(util: Util, d: Dep) returns (decision: Result<bool>)
    requires util.Valid()
    modifies util, util.host
    ensures util.Valid() && util.host.disk == old(util.host.disk)
    ensures decision == CheckDecision(util.lib, util.host.oracle, util.host.disk, d)
    ensures util.State() ==
      if QueriesRefs(util.lib, util.host.disk, d) then StepRefs(util.host.oracle, old(util.State()), d.repo)
      else old(util.State())
  {
    var meta := LookupMeta(util.host.disk, d.dest);
    if meta.Absent? {
      decision := Ok(true);
    } else if meta.Unreadable? {
      decision := Err(MetadataUnreadable(d.dest));
    } else {
      decision := util.NeedsUpdate(meta.treeish, d.treeish, d.repo);
    }
  }

  /**
   * The `mapSeries(getArchive)` stage: each kept dependency with its resolved treeish and
   * tarball, stopping at the first rejection; result, ref cache and log follow `FetchAll`.
   */
  method FetchArchives(util: Util, kept: seq<Dep>) returns (r: Result<seq<Fetched>>)
    requires util.Valid()
    modifies util, util.host
    ensures util.Valid() && util.host.disk == old(util.host.disk)
    ensures var st := FetchAll(util.lib, util.host.oracle, old(util.State()), kept);
      r == st.result && util.State() == st.state
  {
    ghost var s0 := util.State();
    ghost var pre: seq<Dep> := [];
    var fetched: seq<Fetched> := [];
    var i := 0;
    while i < |kept|
      invariant 0 <= i <= |kept| && pre == kept[..i]
      invariant util.Valid() && util.host.disk == old(util.host.disk)
      invariant FetchAll(util.lib, util.host.oracle, s0, pre) == FetchStage(util.State(), Ok(fetched))
    {
      var d := kept[i];
      var f := FetchOne(util, d);
      FetchSnoc(util.lib, util.host.oracle, s0, pre, d, fetched);
      PrefixSnoc(kept, i);
      pre := pre + [d];
      if f.Err? {
        FetchAllErrSticks(util.lib, util.host.oracle, s0, kept, i + 1);
        return Err(f.error);
      }
      fetched := fetched + [f.value];
      i := i + 1;
    }
    assert pre == kept;
    r := Ok(fetched);
  }

  /** `getArchive(obj)` for one kept dependency, as the `Fetched` record the later stages use. */
  method FetchOne(util: Util, d: Dep) returns (r: Result<Fetched>)
    requires util.Valid()
    modifies util, util.host
    ensures util.Valid() && util.host.disk == old(util.host.disk)
    ensures (util.State(), r) == FetchStep(util.lib, util.host.oracle, old(util.State()), d)
  {
    var archive := util.GetArchive(d.repo, d.treeish);
    if archive.Err? {
      return Err(archive.error);
    }
    r := Ok(Fetched(d.repo, d.name, d.dest, archive.value.treeish, archive.value.tarball));
  }

  /**
   * The `mapSeries(untar)` stage over the fetched records' jobs: extract each tarball into
   * its destination until one fails.
   */
  method Untar(host: Host, js: seq<Job>) returns (status: Outcome, done: nat)
    modifies host
    ensures var st := UntarUpTo(host.oracle, |old(host.log)|, old(host.disk), js, |js|);
      host.disk == st.disk && status == st.status && done == st.done
    ensures done <= |js| && host.log == old(host.log) + ExtractCalls(js[..done])
  {
    ghost var t0 := |host.log|;
    ghost var disk0 := host.disk;
    ghost var log0 := host.log;
    status, done := Pass, 0;
    while done < |js| && status.Pass?
      invariant 0 <= done <= |js|
      invariant UntarUpTo(host.oracle, t0, disk0, js, done) == Stage(host.disk, status, done)
      invariant host.log == log0 + ExtractCalls(js[..done])
    {
      status := UntarOne(host, log0, disk0, js, done);
      done := done + 1;
    }
    if status.Fail? {
      UntarFailSticks(host.oracle, t0, disk0, js, done, |js|);
    }
  }

  /**
   * `untar(dep)` for the `i`-th job: its tarball, gunzipped when the name says so, is
   * extracted into its destination, one step further along `UntarUpTo`.
   */
  method UntarOne(host: Host, ghost log0: seq<Call>, ghost disk0: Disk, js: seq<Job>, i: nat)
    returns (status: Outcome)
    requires i < |js|
    requires UntarUpTo(host.oracle, |log0|, disk0, js, i) == Stage(host.disk, Pass, i)
    requires host.log == log0 + ExtractCalls(js[..i])
    modifies host
    ensures UntarUpTo(host.oracle, |log0|, disk0, js, i + 1) == Stage(host.disk, status, i + 1)
    ensures host.log == log0 + ExtractCalls(js[..i + 1])
  {
    var j := js[i];
    ExtractCallsLength(js[..i]);
    assert |host.log| == |log0| + i;
    status := host.ExtractInto(j.tarball, j.gunzip, j.dest);
    PrefixSnoc(js, i);
    ExtractCallsSnoc(js[..i], j);
    assert log0 + ExtractCalls(js[..i]) + [Extract(j.tarball, j.gunzip, j.dest)]
      == log0 + (ExtractCalls(js[..i]) + [Extract(j.tarball, j.gunzip, j.dest)]);
  }

  /** The `map(flatten)` stage: flatten each destination that exists. */
  method Flatten(host: Host, fs: seq<Fetched>)
    modifies host
    ensures host.disk == FlattenAll(old(host.disk), fs) && host.log == old(host.log)
  {
    ghost var disk0 := host.disk;
    var i := 0;
    while i < |fs|
      invariant 0 <= i <= |fs|
      invariant host.disk == FlattenAll(disk0, fs[..i]) && host.log == old(host.log)
    {
      var dest := fs[i].dest;
      assert fs[..i + 1][..i] == fs[..i];
      if dest in host.disk {
        host.disk := host.disk[dest := FlattenDir(host.disk[dest])];
      }
      i := i + 1;
    }
    assert fs[..i] == fs;
  }

  /**
   * The `map(storeMetadata)` stage: write each dependency's record into its destination, until
   * a write throws.
   */
  method StoreMetadata(host: Host, fs: seq<Fetched>) returns (status: Outcome, done: nat)
    modifies host
    ensures var st := StoreAll(old(host.disk), fs);
      host.disk == st.disk && status == st.status && done == st.done
    ensures host.log == old(host.log)
  {
    ghost var disk0 := host.disk;
    status, done := Pass, 0;
    while done < |fs| && status.Pass?
      invariant 0 <= done <= |fs|
      invariant StoreUpTo(disk0, fs, done) == Stage(host.disk, status, done)
      invariant host.log == old(host.log)
    {
      var f := fs[done];
      var written := StoreMeta(DirAt(host.disk, f.dest), f);
      if written.Err? {
        status := Fail(written.error);
      } else {
        host.disk := host.disk[f.dest := written.value];
      }
      done := done + 1;
    }
    if status.Fail? {
      StoreFailSticks(disk0, fs, done, |fs|);
    }
  }

  /** How a run ends: its outcome, the disk it leaves and the ref state. */
  datatype RunEnd = RunEnd(outcome: RunOutcome, disk: Disk, state: RefsState)

  /**
   * `run` in the project directory, given what `package.json` parses to (`None` when the file
   * does not exist), started on `disk` in the ref state `s`: the check stage, then the rest.
   */
  function RunAll(lib: Library, o: Oracle, projectDir: Path, pkg: Option<Package>, disk: Disk, s: RefsState): RunEnd {
    match pkg
    case None => RunEnd(NoPackageJson, disk, s)
    case Some(p) =>
      match p.gitCloneDependencies
      case None => RunEnd(NothingToDo, disk, s)
      case Some(manifest) =>
        var deps := GatherAll(projectDir, manifest);
        var s1 := CheckState(lib, o, disk, s, deps);
        match CheckAll(lib, o, disk, deps)
        case Err(e) => RunEnd(Aborted(e), disk, s1)
        case Ok(kept) => InstallAll(lib, o, projectDir, disk, s1, kept)
  }

  /**
   * The stages after the check: fetch, untar (its extractions logged from the end of the
   * fetch stage on), flatten, store, report; the first failure aborts, before any report line.
   */
  function InstallAll(lib: Library, o: Oracle, projectDir: Path, disk: Disk, s: RefsState, kept: seq<Dep>): RunEnd {
    var f := FetchAll(lib, o, s, kept);
    match f.result
    case Err(e) => RunEnd(Aborted(e), disk, f.state)
    case Ok(fs) =>
      var st := UntarAll(o, |f.state.log|, disk, fs);
      var s2 := f.state.(log := f.state.log + ExtractCalls(Jobs(fs)[..st.done]));
      match st.status
      case Fail(e) => RunEnd(Aborted(e), st.disk, s2)
      case Pass =>
        var sm := StoreAll(FlattenAll(st.disk, fs), fs);
        match sm.status
        case Fail(e) => RunEnd(Aborted(e), sm.disk, s2)
        case Pass => RunEnd(Completed(ReportLines(projectDir, fs)), sm.disk, s2)
  }

  /** `run`: the outcome, the disk and the ref state follow `RunAll`. */
  method Run(util: Util, projectDir: Path, pkg: Option<Package>) returns (outcome: RunOutcome)
    requires util.Valid()
    modifies util, util.host
    ensures util.Valid()
    ensures var e := RunAll(util.lib, util.host.oracle, projectDir, pkg, old(util.host.disk), old(util.State()));
      outcome == e.outcome && util.host.disk == e.disk && util.State() == e.state
  {
    if pkg.None? {
      return NoPackageJson;
    }
    if pkg.value.gitCloneDependencies.None? {
      return NothingToDo;
    }
    var deps := GatherAll(projectDir, pkg.value.gitCloneDependencies.value);
    var check := CheckUpdates(util, deps);
    if check.Err? {
      return Aborted(check.error);
    }
    outcome := Install(util, projectDir, check.value);
  }

  /** The stages after the check, following `InstallAll`. */
  method Install(util: Util, projectDir: Path, kept: seq<Dep>) returns (outcome: RunOutcome)
    requires util.Valid()
    modifies util, util.host
    ensures util.Valid()
    ensures var e := InstallAll(util.lib, util.host.oracle, projectDir, old(util.host.disk), old(util.State()), kept);
      outcome == e.outcome && util.host.disk == e.disk && util.State() == e.state
  {
    var archives := FetchArchives(util, kept);
    if archives.Err? {
      return Aborted(archives.error);
    }
    var fs := archives.value;
    var status, done := Untar(util.host, Jobs(fs));
    if status.Fail? {
      return Aborted(status.error);
    }
    Flatten(util.host, fs);
    var stored, written := StoreMetadata(util.host, fs);
    if stored.Fail? {
      return Aborted(stored.error);
    }
    outcome := Completed(ReportLines(projectDir, fs));
  }

  /** Every decision of the check stage succeeds. */
  predicate CheckPasses(lib: Library, o: Oracle, disk: Disk, deps: seq<Dep>) {
    forall i :: 0 <= i < |deps| ==> CheckDecision(lib, o, disk, deps[i]).Ok?
  }

  /** The first failing decision of the check stage fails with `e`. */
  ghost predicate CheckFailsWith(lib: Library, o: Oracle, disk: Disk, deps: seq<Dep>, e: Error) {
    exists i :: 0 <= i < |deps| && CheckDecision(lib, o, disk, deps[i]) == Err(e)
      && forall j :: 0 <= j < i ==> CheckDecision(lib, o, disk, deps[j]).Ok?
  }

  /** No `getArchive` of the fetch stage rejects. */
  ghost predicate FetchPasses(lib: Library, o: Oracle, s: RefsState, kept: seq<Dep>) {
    forall k, e :: !FetchFailsAt(lib, o, s, kept, k, e)
  }

  /** The first rejecting `getArchive` of the fetch stage rejects with `e`. */
  ghost predicate FetchFailsWith(lib: Library, o: Oracle, s: RefsState, kept: seq<Dep>, e: Error) {
    exists k :: FetchFailsAt(lib, o, s, kept, k, e)
  }

  /** Every extraction of the untar stage passes. */
  predicate UntarPasses(o: Oracle, t: nat, disk: Disk, js: seq<Job>) {
    forall k :: 0 <= k < |js| ==> ExtractPassesAt(o, t, disk, js, k)
  }

  /** The first failing extraction of the untar stage fails with `e`. */
  ghost predicate UntarFailsWith(o: Oracle, t: nat, disk: Disk, js: seq<Job>, e: Error) {
    exists k :: ExtractFailsAt(o, t, disk, js, k, e)
  }

  /** Every write of the store stage succeeds. */
  predicate StorePasses(disk: Disk, fs: seq<Fetched>) {
    forall k :: 0 <= k < |fs| ==> StorePassesAt(disk, fs, k)
  }

  /** The first failing write of the store stage throws `e`. */
  ghost predicate StoreFailsWith(disk: Disk, fs: seq<Fetched>, e: Error) {
    exists k :: StoreFailsAt(disk, fs, k, e)
  }

  /** The fetch stage succeeds exactly when no `getArchive` rejects, and fails with the first rejection. */
  lemma FetchStageSpec(lib: Library, o: Oracle, s: RefsState, kept: seq<Dep>)
    ensures FetchAll(lib, o, s, kept).result.Ok? <==> FetchPasses(lib, o, s, kept)
    ensures FetchAll(lib, o, s, kept).result.Err? ==> FetchFailsWith(lib, o, s, kept, FetchAll(lib, o, s, kept).result.error)
  {
    if FetchAll(lib, o, s, kept).result.Ok? {
      FetchAllOk(lib, o, s, kept);
      forall k, e ensures !FetchFailsAt(lib, o, s, kept, k, e) { }
    } else {
      FetchAllErr(lib, o, s, kept);
    }
  }

  /** The untar stage passes exactly when every extraction passes, and fails with the first failure. */
  lemma UntarStageSpec(o: Oracle, t: nat, disk: Disk, js: seq<Job>)
    ensures UntarUpTo(o, t, disk, js, |js|).status == Pass <==> UntarPasses(o, t, disk, js)
    ensures UntarUpTo(o, t, disk, js, |js|).status.Fail? ==>
      UntarFailsWith(o, t, disk, js, UntarUpTo(o, t, disk, js, |js|).status.error)
  {
    var st := UntarUpTo(o, t, disk, js, |js|);
    if st.status == Pass {
      UntarUpToPass(o, t, disk, js, |js|);
    } else {
      UntarUpToFail(o, t, disk, js, |js|);
      var k := st.done - 1;
      assert ExtractFailsAt(o, t, disk, js, k, st.status.error);
      assert !ExtractPassesAt(o, t, disk, js, k);
    }
  }

  /** The store stage passes exactly when every write succeeds, and fails with the first that throws. */
  lemma StoreStageSpec(disk: Disk, fs: seq<Fetched>)
    ensures StoreAll(disk, fs).status == Pass <==> StorePasses(disk, fs)
    ensures StoreAll(disk, fs).status.Fail? ==> StoreFailsWith(disk, fs, StoreAll(disk, fs).status.error)
  {
    var st := StoreAll(disk, fs);
    if st.status == Pass {
      StoreUpToPass(disk, fs, |fs|);
    } else {
      StoreUpToFail(disk, fs, |fs|);
      var k := st.done - 1;
      assert StoreFailsAt(disk, fs, k, st.status.error);
      assert !StorePassesAt(disk, fs, k);
    }
  }

  /** The disk the flatten stage leaves, after the fetch and untar stages of `kept`. */
  ghost function Flattened(lib: Library, o: Oracle, disk: Disk, s: RefsState, kept: seq<Dep>, fs: seq<Fetched>): Disk {
    FlattenAll(UntarAll(o, |FetchAll(lib, o, s, kept).state.log|, disk, fs).disk, fs)
  }

  /**
   * After the check: no `getArchive` rejects, and if none does, every extraction passes, and if
   * they all do, every record is written.
   */
  ghost predicate InstallPasses(lib: Library, o: Oracle, disk: Disk, s: RefsState, kept: seq<Dep>) {
    var f := FetchAll(lib, o, s, kept);
    && FetchPasses(lib, o, s, kept)
    && (f.result.Ok? ==> UntarPasses(o, |f.state.log|, disk, Jobs(f.result.value)))
    && (f.result.Ok? && UntarPasses(o, |f.state.log|, disk, Jobs(f.result.value)) ==>
         StorePasses(Flattened(lib, o, disk, s, kept, f.result.value), f.result.value))
  }

  /**
   * After the check: the first rejecting `getArchive`, or else the first failed extraction, or
   * else the first write that throws, fails with `e`.
   */
  ghost predicate InstallFailsWith(lib: Library, o: Oracle, disk: Disk, s: RefsState, kept: seq<Dep>, e: Error) {
    var f := FetchAll(lib, o, s, kept);
    || FetchFailsWith(lib, o, s, kept, e)
    || (f.result.Ok? && UntarFailsWith(o, |f.state.log|, disk, Jobs(f.result.value), e))
    || (f.result.Ok? && UntarPasses(o, |f.state.log|, disk, Jobs(f.result.value))
        && StoreFailsWith(Flattened(lib, o, disk, s, kept, f.result.value), f.result.value, e))
  }

  /**
   * After the check, a run completes exactly when no `getArchive` rejects, every extraction
   * passes and every record is written; otherwise it aborts with the first rejection, or else
   * the first failed extraction, or else the first write that throws.
   */
  lemma InstallOutcomeSpec(lib: Library, o: Oracle, projectDir: Path, disk: Disk, s: RefsState, kept: seq<Dep>)
    ensures var r := InstallAll(lib, o, projectDir, disk, s, kept);
      && (r.outcome.Completed? || r.outcome.Aborted?)
      && (r.outcome.Completed? <==> InstallPasses(lib, o, disk, s, kept))
      && (r.outcome.Aborted? ==> InstallFailsWith(lib, o, disk, s, kept, r.outcome.error))
  {
    var f := FetchAll(lib, o, s, kept);
    FetchStageSpec(lib, o, s, kept);
    if f.result.Ok? {
      var fs := f.result.value;
      var st := UntarAll(o, |f.state.log|, disk, fs);
      UntarStageSpec(o, |f.state.log|, disk, Jobs(fs));
      if st.status == Pass {
        StoreStageSpec(Flattened(lib, o, disk, s, kept, fs), fs);
      }
    }
  }

  /**
   * Fail-fast, stage by stage: a run over a manifest completes, with exit status 0, exactly
   * when every decision of the check succeeds, no `getArchive` rejects, every extraction
   * passes and every record is written; otherwise it aborts, with exit status 1 and no report
   * line, with the error of the first failing step of the first failing stage.
   */
  lemma RunOutcomeSpec(lib: Library, o: Oracle, projectDir: Path, manifest: Manifest, disk: Disk, s: RefsState)
    ensures var r := RunAll(lib, o, projectDir, Some(Package(Some(manifest))), disk, s);
      var deps := GatherAll(projectDir, manifest);
      var s1 := CheckState(lib, o, disk, s, deps);
      var check := CheckAll(lib, o, disk, deps);
      && (r.outcome.Completed? || r.outcome.Aborted?)
      && (ExitStatus(r.outcome) == 0 <==> r.outcome.Completed?)
      && (r.outcome.Completed? <==>
           CheckPasses(lib, o, disk, deps) && (check.Ok? ==> InstallPasses(lib, o, disk, s1, check.value)))
      && (r.outcome.Aborted? ==>
           || CheckFailsWith(lib, o, disk, deps, r.outcome.error)
           || (check.Ok? && InstallFailsWith(lib, o, disk, s1, check.value, r.outcome.error)))
  {
    var deps := GatherAll(projectDir, manifest);
    var s1 := CheckState(lib, o, disk, s, deps);
    var check := CheckAll(lib, o, disk, deps);
    var r := RunAll(lib, o, projectDir, Some(Package(Some(manifest))), disk, s);
    CheckAllSpec(lib, o, disk, deps);
    assert check.Ok? <==> CheckPasses(lib, o, disk, deps);
    if check.Ok? {
      assert r == InstallAll(lib, o, projectDir, disk, s1, check.value);
      InstallOutcomeSpec(lib, o, projectDir, disk, s1, check.value);
    } else {
      assert r == RunEnd(Aborted(check.error), disk, s1);
      assert CheckFailsWith(lib, o, disk, deps, check.error);
    }
  }

  /**
   * Running again after a completed run, over the same manifest against the same refs and in
   * any ref state, fetches nothing: it completes with no report line and leaves the disk as
   * the first run left it.
   */
  lemma RunIsStable(lib: Library, o: Oracle, projectDir: Path, manifest: Manifest, disk: Disk, s: RefsState, s2: RefsState)
    requires DistinctDests(GatherAll(projectDir, manifest))
    requires RunAll(lib, o, projectDir, Some(Package(Some(manifest))), disk, s).outcome.Completed?
    ensures var first := RunAll(lib, o, projectDir, Some(Package(Some(manifest))), disk, s);
      var second := RunAll(lib, o, projectDir, Some(Package(Some(manifest))), first.disk, s2);
      second.outcome == Completed([]) && second.disk == first.disk
  {
    var deps := GatherAll(projectDir, manifest);
    var s1 := CheckState(lib, o, disk, s, deps);
    var kept := CheckAll(lib, o, disk, deps).value;
    var f := FetchAll(lib, o, s1, kept);
    var fs := f.result.value;
    FetchAllFrom(lib, o, s1, kept);
    CompletedRunIsStable(lib, o, |f.state.log|, disk, deps, fs);
    var first := RunAll(lib, o, projectDir, Some(Package(Some(manifest))), disk, s);
    var sm := StoreAll(FlattenAll(UntarAll(o, |f.state.log|, disk, fs).disk, fs), fs);
    assert sm.status == Pass && first.disk == sm.disk;
    var t1 := CheckState(lib, o, first.disk, s2, deps);
    assert FetchAll(lib, o, t1, []) == FetchStage(t1, Ok([]));
    assert UntarAll(o, |t1.log|, first.disk, []) == Stage(first.disk, Pass, 0);
    assert StoreAll(FlattenAll(first.disk, []), []) == Stage(first.disk, Pass, 0);
  }

  /**
   * A run carries the ref state forward: every repo cached before is still cached, and the
   * log and the queried repos only grow, so across all the stages of a run each repo's refs
   * are queried at most once.
   */
  lemma RunExtends(lib: Library, o: Oracle, projectDir: Path, pkg: Option<Package>, disk: Disk, s: RefsState)
    ensures Extends(s, RunAll(lib, o, projectDir, pkg, disk, s).state)
  {
    assert s.log[..|s.log|] == s.log && s.queried[..|s.queried|] == s.queried;
    if pkg.Some? && pkg.value.gitCloneDependencies.Some? {
      var deps := GatherAll(projectDir, pkg.value.gitCloneDependencies.value);
      var s1 := CheckState(lib, o, disk, s, deps);
      CheckStateExtends(lib, o, disk, s, deps);
      var check := CheckAll(lib, o, disk, deps);
      if check.Ok? {
        var f := FetchAll(lib, o, s1, check.value);
        FetchAllExtends(lib, o, s1, check.value);
        ExtendsTrans(s, s1, f.state);
        if f.result.Ok? {
          var fs := f.result.value;
          var st := UntarAll(o, |f.state.log|, disk, fs);
          var s3 := f.state.(log := f.state.log + ExtractCalls(Jobs(fs)[..st.done]));
          assert s3.log[..|f.state.log|] == f.state.log;
          assert f.state.queried[..|f.state.queried|] == f.state.queried;
          ExtendsTrans(s, f.state, s3);
        }
      }
    }
  }
}
