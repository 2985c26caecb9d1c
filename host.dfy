/**
 * The outside world of the pipeline: subprocesses, the GitHub API, temporary directories and
 * tar extraction are answers of an `Oracle`; the `Host` records every call it makes in `log`
 * and holds the destination directories in `disk`.
 *
 * Answers that can change between two calls are indexed by the call's position in the log,
 * so two identical calls at different moments may get different answers. The ref listings of
 * a repository (`git ls-remote`, `GET /repos/<name>/git/refs`) are fixed for a run.
 */
module Host {
  import opened Common

  /** A git subprocess run through `_cmd` (src/util.js:21-36). */
  datatype Command =
    | Clone(shallow: bool, repo: string, dir: Path)
    | ShowRef(cwd: Path)
    | FetchTags(cwd: Path)
    | ArchiveTar(treeish: string, cwd: Path)

  /** One interaction with the outside world, as it appears in the log. */
  datatype Call =
    | LsRemote(repo: string)
    | ApiRefs(shortName: string)
    | MakeTemp
    | Exec(command: Command)
    | ApiTarball(shortName: string, treeish: string)
    | Extract(tarball: Path, gunzip: bool, dest: Path)

  /**
   * A directory entry. `Record` is a `.npm-git-clone` file as `storeMetadata` writes it.
   * `Json` is any other JSON text that is not `null`: its `treeish` property is `Some` string,
   * or `None` when it is missing or not a string. A `File` is content on which reading
   * `JSON.parse(content).treeish` throws: text that is not JSON, or `null`.
   */
  datatype Entry =
    | File(content: string)
    | Folder(children: map<string, Entry>)
    | Record(repo: string, treeish: string)
    | Json(treeishField: Option<string>)

  type Dir = map<string, Entry>

  /** The directories the pipeline extracts into, by absolute path. */
  type Disk = map<Path, Dir>

  /** A directory that does not exist reads as empty. */
  function DirAt(disk: Disk, p: Path): Dir {
    if p in disk then disk[p] else map[]
  }

  /** What a tar extraction leaves in the destination, and whether the stream ended or failed. */
  datatype Extraction = Extraction(contents: Dir, status: Outcome)

  datatype Oracle = Oracle(
    /** stdout of `git ls-remote <repo>`, or the failure. */
    lsRemote: string -> Result<string>,
    /** The `ref` fields of `GET /repos/<shortName>/git/refs`, or the failure. */
    apiRefs: string -> Result<seq<string>>,
    /** The directory `temp.mkdirSync` creates at a given moment. */
    makeTemp: nat -> Path,
    /** stdout of a subprocess, or its failure. */
    exec: (nat, Command) -> Result<string>,
    /** The file name of the downloaded tarball of `(shortName, treeish)`, or the failure. */
    apiTarball: (nat, string, string) -> Result<string>,
    /** Extracting a tarball (gunzipped or not) over the current contents of a directory. */
    extract: (nat, Path, bool, Dir) -> Extraction)

  class Host {
    const oracle: Oracle
    var log: seq<Call>
    var disk: Disk

    constructor (oracle: Oracle, disk: Disk)
      ensures this.oracle == oracle && this.disk == disk && log == []
    {
      this.oracle := oracle;
      this.disk := disk;
      log := [];
    }

    method RunLsRemote(repo: string) returns (r: Result<string>)
      modifies this
      ensures r == oracle.lsRemote(repo)
      ensures log == old(log) + [LsRemote(repo)] && disk == old(disk)
    {
      r := oracle.lsRemote(repo);
      log := log + [LsRemote(repo)];
    }

    method GetApiRefs(shortName: string) returns (r: Result<seq<string>>)
      modifies this
      ensures r == oracle.apiRefs(shortName)
      ensures log == old(log) + [ApiRefs(shortName)] && disk == old(disk)
    {
      r := oracle.apiRefs(shortName);
      log := log + [ApiRefs(shortName)];
    }

    method MakeTempDir() returns (p: Path)
      modifies this
      ensures p == oracle.makeTemp(|old(log)|)
      ensures log == old(log) + [MakeTemp] && disk == old(disk)
    {
      p := oracle.makeTemp(|log|);
      log := log + [MakeTemp];
    }

    method Run(command: Command) returns (r: Result<string>)
      modifies this
      ensures r == oracle.exec(|old(log)|, command)
      ensures log == old(log) + [Exec(command)] && disk == old(disk)
    {
      r := oracle.exec(|log|, command);
      log := log + [Exec(command)];
    }

    method GetTarball(shortName: string, treeish: string) returns (r: Result<string>)
      modifies this
      ensures r == oracle.apiTarball(|old(log)|, shortName, treeish)
      ensures log == old(log) + [ApiTarball(shortName, treeish)] && disk == old(disk)
    {
      r := oracle.apiTarball(|log|, shortName, treeish);
      log := log + [ApiTarball(shortName, treeish)];
    }

    /** Extracts into `dest`: the destination holds what the extraction left, even on failure. */
    method ExtractInto(tarball: Path, gunzip: bool, dest: Path) returns (status: Outcome)
      modifies this
      ensures var x := oracle.extract(|old(log)|, tarball, gunzip, DirAt(old(disk), dest));
        status == x.status && disk == old(disk)[dest := x.contents]
      ensures log == old(log) + [Extract(tarball, gunzip, dest)]
    {
      var x := oracle.extract(|log|, tarball, gunzip, DirAt(disk, dest));
      disk := disk[dest := x.contents];
      status := x.status;
      log := log + [Extract(tarball, gunzip, dest)];
    }
  }
}
