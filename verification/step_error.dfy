/** The errors a release step can end with. */
module StepErrors {
  import opened Text

  datatype StepError =
    | NoDefinedPackages
    | TooManyPackages
    | InconsistentVersions(found: String, expected: String)
    | InvalidSemanticVersion(text: String)
    | InvalidPreReleaseVersion(message: String)
    | NoRelease
    | ReleaseNotPrepared
    | MissingModuleLine
    | MalformedModuleLine(line: String)
    | Collaborator(message: String)   // reading, writing or parsing done outside the model
}
