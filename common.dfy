/** Shared wrappers and the errors the fetching pipeline can raise. */
module Common {

  /** A path as a sequence of segments; `[]` is the file-system root. */
  type Path = seq<string>

  datatype Option<+T> = None | Some(value: T)

  datatype Result<+T> = Ok(value: T) | Err(error: Error)

  /** The outcome of a step that yields no value. */
  datatype Outcome = Pass | Fail(error: Error)

  /** Every way a run can be aborted. */
  datatype Error =
    /** A subprocess, the hosting API or the extractor failed; the message comes from outside. */
    | External(message: string)
    /** A range specifier matched no tag; carries the complete ref list for diagnosis. */
    | NoMatchingVersion(repo: string, range: string, refs: seq<string>)
    /** `needsUpdate` read `.tag` of an undefined match (a TypeError in the source). */
    | NoTagForRange(range: string)
    /** The `.npm-git-clone` entry exists but is not a readable metadata record. */
    | MetadataUnreadable(dest: Path)
    /** `.npm-git-clone` in the destination is a directory, so writing the record throws (EISDIR). */
    | MetadataUnwritable(dest: Path)
}
