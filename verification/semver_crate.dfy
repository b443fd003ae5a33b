/** The external `semver` crate as the older engine generation uses it: a version record
    whose empty prerelease text means "stable" (build metadata is not modelled), its text
    form, and the rule by which `Prerelease::new` accepts a prerelease text, which is the
    identifier grammar of section 9 of Semantic Versioning 2.0.0. */
module SemverCrate {
  import opened Text

  datatype SemVer = SemVer(major: nat, minor: nat, patch: nat, pre: String)

  /** `Version::new`: a stable version. */
  function NewVersion(major: nat, minor: nat, patch: nat): SemVer {
    SemVer(major, minor, patch, "")
  }

  predicate IsStable(v: SemVer) {
    |v.pre| == 0
  }

  predicate SameTriple(a: SemVer, b: SemVer) {
    a.major == b.major && a.minor == b.minor && a.patch == b.patch
  }

  /** Strict lexicographic order on (major, minor, patch), ignoring the prerelease text. */
  predicate TripleLess(a: SemVer, b: SemVer) {
    || a.major < b.major
    || (a.major == b.major && a.minor < b.minor)
    || (a.major == b.major && a.minor == b.minor && a.patch < b.patch)
  }

  /** `Display for semver::Version`: "major.minor.patch", then "-pre" when there is one. */
  function ToString(v: SemVer): String {
    NatToString(v.major) + "." + NatToString(v.minor) + "." + NatToString(v.patch)
      + (if IsStable(v) then "" else "-" + v.pre)
  }

  predicate IdentifierChar(c: char) {
    ('0' <= c <= '9') || ('A' <= c <= 'Z') || ('a' <= c <= 'z') || c == '-'
  }

  /** One dot-separated prerelease identifier: non-empty, alphanumerics and '-', and a
      purely numeric identifier has no leading zero. */
  predicate ValidIdentifier(id: String) {
    && 0 < |id|
    && (forall i | 0 <= i < |id| :: IdentifierChar(id[i]))
    && !(AllDigits(id) && 1 < |id| && id[0] == '0')
  }

  /** What `Prerelease::new` accepts: the empty text, or dot-separated valid identifiers. */
  predicate PrereleaseTextValid(s: String) {
    |s| == 0 || forall part | part in Split(s, '.') :: ValidIdentifier(part)
  }
}
