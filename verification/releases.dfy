/** The release state shared by the older engine generation: the current stable version
    with an optional newer prerelease, and the check that a release was prepared before it
    is published. */
module Releases {
  import opened Base
  import opened Text
  import opened SemverCrate
  import opened StepErrors

  datatype CurrentVersions = CurrentVersions(stable: SemVer, prerelease: Option<SemVer>)

  datatype Release = Release(version: SemVer, changelog: String, packageName: Option<String>)

  /** What the run state records about the release in progress. */
  datatype StateRelease = Unset | Bumped(version: SemVer) | Prepared(release: Release)

  /** Where a prepared release is published. */
  datatype Backend = GitHub | GitTag

  /** The version to publish: the prerelease when there is one. */
  function Latest(cv: CurrentVersions): SemVer {
    cv.prerelease.UnwrapOr(cv.stable)
  }

  /** The consuming variant of `Latest`. */
  function IntoLatest(cv: CurrentVersions): SemVer {
    match cv.prerelease
    case Some(pre) => pre
    case None => cv.stable
  }

  function DefaultCurrentVersions(): CurrentVersions {
    CurrentVersions(NewVersion(0, 0, 0), None)
  }

  /** `latest` and `into_latest` agree: the prerelease if present, else the stable version;
      the default is a stable 0.0.0 with no prerelease. */
  lemma LatestProperties(cv: CurrentVersions)
    ensures Latest(cv) == IntoLatest(cv)
    ensures cv.prerelease.Some? ==> Latest(cv) == cv.prerelease.value
    ensures cv.prerelease.None? ==> Latest(cv) == cv.stable
    ensures DefaultCurrentVersions() == CurrentVersions(SemVer(0, 0, 0, ""), None)
    ensures IsStable(Latest(DefaultCurrentVersions()))
  {
  }

  /** `release`: publishing needs a prepared release; it goes to GitHub when a GitHub
      configuration exists and to a Git tag otherwise. */
  function PublishRelease(state: StateRelease, hasGitHubConfig: bool): (r: Result<(Release, Backend), StepError>)
    ensures r.Err? <==> !state.Prepared?
    ensures r.Err? ==> r.error == ReleaseNotPrepared
    ensures r.Ok? ==> r.value.0 == state.release
    ensures r.Ok? ==> (r.value.1 == GitHub <==> hasGitHubConfig)
  {
    match state
    case Prepared(release) => Ok((release, if hasGitHubConfig then GitHub else GitTag))
    case _ => Err(ReleaseNotPrepared)
  }
}
