/**
 * The small part of the semver library the pipeline uses. A version is a numeric triple,
 * compared lexicographically (what `semver.rcompare` does for plain `N.N.N` versions);
 * `validRange` and `satisfies` are left uninterpreted and supplied as functions.
 */
module Semver {

  datatype Version = Version(major: nat, minor: nat, patch: nat)

  /** Strictly older, lexicographically on (major, minor, patch). */
  predicate Less(a: Version, b: Version) {
    || a.major < b.major
    || (a.major == b.major && a.minor < b.minor)
    || (a.major == b.major && a.minor == b.minor && a.patch < b.patch)
  }

  /** Not newer. */
  predicate LessEq(a: Version, b: Version) {
    !Less(b, a)
  }

  /** The order is total, and equal-ranked versions are the same triple. */
  lemma LessEqTotal(a: Version, b: Version)
    ensures LessEq(a, b) || LessEq(b, a)
    ensures LessEq(a, b) && LessEq(b, a) ==> a == b
  {
  }

  /** `semver.validRange(s)` and `semver.satisfies(version, range)`, as fixed functions. */
  datatype Library = Library(validRange: string -> bool, satisfies: (Version, string) -> bool)
}
