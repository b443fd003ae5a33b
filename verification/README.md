# Release decisions of knope, in Dafny

This project models the release-decision engine of knope. That is the part that decides the next version of a package, and it covers:

- **Bump rules.** How a bump rule (`Major`, `Minor`, `Patch`, `Pre`, `Release`) moves the current stable version and prerelease forward. Major version 0 has a special meaning, and prerelease numbers continue as `label.n`.
- **Current version.** How one package's versioned files are reduced to one current version, and which version is written back.
- **Conventional commits.** How the commits since the last stable version become a bump rule and changelog entries, filtered by the scopes of each package. The rule becomes a prepared release for every package.
- **Tag scan.** How release tags are named, and how the tag scan finds the current stable version and the prerelease that is not yet superseded.
- **Release state.** The release state, and the check that a release was prepared before it is published.
- **Change files.** The change-type vocabulary, and how pending change files are handed to packages. Each file is retired (deleted, or reported in a dry run) at most once.
- **Logical package.** A logical package of versioned files: construction, reading and setting its version.
- **Go modules.** How a `go.mod` file records major versions of 2 and above in its module path.

The repository holds two generations of this engine, and both are modelled.

The older generation is under `src/releases` and `src/step/releases`. It is modelled in these modules:

- `SemverCrate`, the external `semver` version record;
- `Releases`;
- `SemverRules`;
- `ConventionalCommits`;
- `GitTags`;
- `GoMod`;
- `Changesets`.

The newer generation is under `crates/`. It is modelled in these modules:

- `VersionValue`, the engine's own version type with its order and text form;
- `LogicalPackage`.

`Base` holds `Option` and `Result`. `Text` holds the Rust string operations the code relies on:

- `split`, `split_once`, `join`, `replace`;
- `lines`, `split_whitespace`, `trim`;
- u64 and u16 parsing and printing.

`StepErrors` holds the step errors.

The collaborators appear as parameters or as input data:

- git, the file system, the semantic-version parser of the `semver` crate, the conventional-commit parser, changelog rendering and the versioned-file formats;
- tags arrive as reference names, commits as messages, file versions as already-read results, and the change directory as loaded data;
- deletions and dry-run reports come back as a list of actions.

## Model

| member | source | states |
|---|---|---|
| VersionValue.NewProperties | crates/knope/src/step/releases/semver/version.rs:13-46 | `new` builds a prerelease exactly when one is given; its stable component is the given triple; the default is stable 0.0.0 |
| VersionValue.IncrementMajor | crates/knope/src/step/releases/semver/version.rs:62-68 | the result is above the input, has a larger major component, and is the least version whose major component is larger, which pins (major+1).0.0 |
| VersionValue.IncrementMinor | crates/knope/src/step/releases/semver/version.rs:70-76 | the result keeps major, has a larger minor, is above the input, and is the least version with that major and a larger minor, which pins major.(minor+1).0 |
| VersionValue.IncrementPatch | crates/knope/src/step/releases/semver/version.rs:78-84 | the result keeps major and minor and is the immediate successor: no stable version lies strictly between them |
| VersionValue.StableOrderIsLexicographic | crates/knope/src/step/releases/semver/version.rs:87-94 | the stable order is lexicographic on (major, minor, patch); it is `Equal` exactly for equal triples, and swapping the arguments reverses it |
| VersionValue.StableOrderTransitive | crates/knope/src/step/releases/semver/version.rs:87-94 | the stable order is transitive, and strictly so when one step is strict |
| VersionValue.PrereleaseOrderIsTotal | crates/knope/src/step/releases/semver/version.rs:229-235 | prerelease order (label as text, then number) is `Equal` only for equal prereleases, antisymmetric and transitive |
| VersionValue.VersionOrderIsTotal | crates/knope/src/step/releases/semver/version.rs:120-134 | the version order is a total order: `Equal` exactly for equal versions, antisymmetric, transitive |
| VersionValue.SameTripleOrder | crates/knope/src/step/releases/semver/version.rs:122-130 | with equal stable components a stable version outranks a prerelease, two stable ones are equal, and two prereleases compare by (label, number) |
| VersionValue.StableComponentDecides | crates/knope/src/step/releases/semver/version.rs:121-132 | differing stable components decide the order whatever the kinds of the two versions, and the result is never `Equal` |
| VersionValue.PrereleaseOfNextMinorIsAboveStable | crates/knope/src/step/releases/semver/version.rs:121-132 | 1.3.0-rc.0 is above 1.2.3 |
| VersionValue.ParseNumbers | crates/knope/src/step/releases/semver/version.rs:149-152 | success gives one number per part, each the u64 reading of its part; failure means some part is not a u64 |
| VersionValue.FromStr | crates/knope/src/step/releases/semver/version.rs:145-168 | an accepted text has exactly three u64 parts before its first '-', which are the version's triple, and it is a prerelease exactly when the text has a '-' |
| VersionValue.PrereleaseFromStr | crates/knope/src/step/releases/semver/version.rs:216-226 | a text without '.' is refused; an accepted one is the label, the first '.', then the u64 number |
| VersionValue.PrereleaseFromStrCases | crates/knope/src/step/releases/semver/version.rs:216-226 | "label.number" with a '.'-free label is accepted exactly when the number is a u64, and then reads back as that label and number |
| VersionValue.PrereleaseNeedsDot | crates/knope/src/step/releases/semver/version.rs:217-219 | a prerelease text without '.' is refused, and so is every version text carrying it after the first '-' |
| VersionValue.StableTextRoundTrip | crates/knope/src/step/releases/semver/version.rs:149-154 | the printed triple has no '-' and its three '.'-separated parts parse back to the triple |
| VersionValue.RoundTrip | crates/knope/src/step/releases/semver/version.rs:145-226 | printing a version with u64 components and a '.'-free label and parsing the text gives the version back |
| SemverRules.FromConventionalIsOneToOne | src/releases/semver.rs:28-36 | the conversion maps `Major`, `Minor`, `Patch` one-to-one onto the rules of the same name |
| SemverRules.Bump | src/releases/semver.rs:178-213 | a primary rule always succeeds with a stable version and no prerelease; `Release` fails exactly when there is no prerelease; a successful `Pre` keeps the stable version and sets a prerelease |
| SemverRules.BumpMajor | src/releases/semver.rs:183-189 | from major >= 1, `Major` gives (major+1).0.0 and drops any prerelease |
| SemverRules.BumpZeroMajor | src/releases/semver.rs:190-195 | below 1.0.0, `Major` bumps minor, zeroes patch and drops any prerelease |
| SemverRules.BumpMinor | src/releases/semver.rs:190-195 | from major >= 1, `Minor` bumps minor, zeroes patch and drops any prerelease |
| SemverRules.BumpZeroMinor | src/releases/semver.rs:196-200 | below 1.0.0, `Minor` bumps only patch |
| SemverRules.BumpPatch | src/releases/semver.rs:196-200 | `Patch` bumps only patch, for every major version, and drops any prerelease |
| SemverRules.BumpIncreases | src/releases/semver.rs:178-200 | a primary rule moves the stable triple strictly upwards |
| SemverRules.BumpRelease | src/releases/semver.rs:201-210 | `Release` without a prerelease is `InvalidPreReleaseVersion`; with one, the prerelease without its suffix becomes stable and no prerelease is left |
| SemverRules.BumpPre | src/releases/semver.rs:468-501 | a successful prerelease bump keeps the stable version and yields a prerelease |
| SemverRules.BumpPreContinued | src/releases/semver.rs:476-498 | when the old prerelease has the target triple and its text splits on '.' into exactly the label and a u16 n, the new prerelease text is "label.(n+1)", wrapping at the u16 bound; the bump fails exactly when that text is not a valid prerelease, naming it, and otherwise keeps the stable version and aims the prerelease at the target |
| SemverRules.BumpPreRestarted | src/releases/semver.rs:476-498 | in every other case (no prerelease, another triple, not two parts, another label, a number that is not a u16) the new prerelease text is "label.0", with the same failure and success outcomes |
| SemverRules.PreWithValidLabelSucceeds | src/releases/semver.rs:476-498 | with a valid '.'-free label a `Pre` bump never fails, whatever the old prerelease |
| SemverRules.BumpPreTarget | src/releases/semver.rs:474-475 | a successful `Pre` keeps the stable version, and the prerelease's triple is the bumped stable version, strictly above the current one |
| SemverRules.PreStartsAtZero | src/releases/semver.rs:476-492 | when the old prerelease is missing, has another triple, or its text is not exactly the label and a u16 number (another label, other than two parts, a number that is not a u16), the new prerelease is "label.0" |
| SemverRules.ContinuesNumber | src/releases/semver.rs:476-491 | "label.n" of the same triple continues as "label.(n+1)", wrapping at 65536 |
| SemverRules.PreContinues | src/releases/semver.rs:476-500 | a `Pre` bump from prerelease "label.n" of the target gives "label.(n+1)" and keeps the stable version |
| SemverRules.PreSecondStep | src/releases/semver.rs:383-401 | "label.0" continues as "label.1" |
| SemverRules.PreSwitchLabel | src/releases/semver.rs:423-441 | after "label.1", a different label restarts at "other.0" |
| SemverRules.PrereleaseNumbering | src/releases/semver.rs:364-441 | from no prerelease, two `Pre` bumps give "label.0" then "label.1", and a third with another label gives "other.0" |
| SemverRules.ReduceVersions | src/releases/semver.rs:107-130 | no files gives nothing; a common version means every file read it; an error is that of the first file that failed or disagreed with the first file |
| SemverRules.CombineKeepsFirstDisagreement | src/releases/semver.rs:117-129 | one step of the reduction keeps that meaning for the longer list of files |
| SemverRules.ReduceAgreeing | src/releases/semver.rs:117-121 | files that all read the same version reduce to that version |
| SemverRules.GetVersion | src/releases/semver.rs:98-151 | no packages is `NoDefinedPackages`; more than one is `TooManyPackages`; success is about the single package given |
| SemverRules.GetVersionAgreeing | src/releases/semver.rs:132-148 | an agreed stable file version is the current stable version with no prerelease; an agreed prerelease is kept, with the stable version from the tags or 0.0.0, and an error reading the tags is the outcome |
| SemverRules.GetVersionWithoutFiles | src/releases/semver.rs:132-133 | a package without versioned files takes the versions the tags give, 0.0.0 with no prerelease when there is no tag, and an error reading the tags is the outcome |
| SemverRules.GetVersionInconsistent | src/releases/semver.rs:117-126 | two files that read different versions give `InconsistentVersions` |
| SemverRules.FirstWriteError | src/releases/semver.rs:164-166 | writing fails exactly when some file's write fails, with the first failure |
| SemverRules.SetVersion | src/releases/semver.rs:155-168 | the version returned is the prerelease when there is one, else the stable version; a dry run cannot fail; a real run fails exactly when a write fails, and then with the first failed write's error |
| SemverRules.BumpVersion | src/releases/semver.rs:66-74 | any number of packages other than one is an error |
| SemverRules.BumpVersionSingle | src/releases/semver.rs:66-74 | for one package: an error reading the version, then an error applying the rule, is the outcome; otherwise the bump succeeds exactly in a dry run or when no write fails, a failure being the first failed write's error in a real run, and yields the bumped prerelease if there is one, else the bumped stable version |
| SemverRules.BumpVersionScenario | src/releases/semver.rs:66-74 | one package whose files read 1.2.3, bumped by `Minor` in a dry run, gives 1.3.0 |
| SemverRules.DryRunDecidesLikeRealRun | src/releases/semver.rs:66-74 | a dry run decides the same version as a real run whose writes succeed |
| Releases.LatestProperties | src/releases/mod.rs:37-53 | `latest` and `into_latest` agree on the prerelease if present, else the stable version; the default is stable 0.0.0 with no prerelease |
| Releases.PublishRelease | src/releases/mod.rs:58-72 | publishing fails with `ReleaseNotPrepared` exactly when no release was prepared; otherwise the prepared release goes to GitHub exactly when it is configured, else to a git tag |
| GitTags.TagPrefix | src/releases/git.rs:13-15 | the prefix is "v" without a package name and "<name>/v" with one |
| GitTags.TagName | src/releases/git.rs:12-17 | the tag is the prefix followed by exactly the version's text |
| GitTags.AsWrittenMangles | src/releases/git.rs:75 | when a version's text contains "v", stripping every "v" from its default tag yields a different, shorter text |
| GitTags.TagVersionAsWritten | src/releases/git.rs:63-76 | the per-tag reading as written; what it hands the parser is stated by the AsWrittenAfterRefs, AsWrittenMangles and AsWrittenReadsDevTag rows |
| GitTags.AsWrittenAfterRefs | src/releases/git.rs:63-76 | the scan as written reads a tag's reference "refs/tags/<tag>" as the tag itself, and hands the parser the tag with every occurrence of the pattern removed |
| GitTags.AsWrittenReadsDevTag | src/releases/git.rs:75 | the scan as written hands the parser "1.1.0-de.0" for the tag "v1.1.0-dev.0" |
| GitTags.TagVersion | src/releases/git.rs:68-76 | a version is only read from a reference that is "refs/tags/" (optionally), the pattern, then the text parsed |
| GitTags.TagRoundTrip | src/releases/git.rs:12-17 | the reference of a release's tag is read back for that package as exactly the version's text |
| GitTags.OtherPackageTagIgnored | src/releases/git.rs:72-74 | a named package's tag is not read for the unnamed package when the name does not start with 'v' |
| GitTags.ScanTags | src/releases/git.rs:66-85 | for any per-tag reading: nothing is found exactly when no tag names a stable version; otherwise the stable version is the last stable one in order, and the prerelease is the first one after it, if any |
| GitTags.CurrentVersionsFromTagsAsWritten | src/releases/git.rs:49-86 | the scan's outcome, as `ScanTags` states it, for the tags read as written: every "refs/tags/" and every occurrence of the pattern removed |
| GitTags.CurrentVersionsFromTags | src/releases/git.rs:49-86 | the scan's outcome, as `ScanTags` states it, for the tags read with the corrected leading-only reading |
| ConventionalCommits.Step | src/releases/conventional_commits.rs:54-90 | one pass of the loop over a commit; its meaning over a whole list is stated by the FromCommitsMeaning row |
| ConventionalCommits.FromCommits | src/releases/conventional_commits.rs:48-98 | the loop over the commits; what it collects is stated by the FromCommitsMeaning row |
| ConventionalCommits.FromCommitMessages | src/releases/conventional_commits.rs:25-46 | the selected commits summarised; selection is stated by the SelectCommitsInOrder row and the summary by the FromCommitsMeaning row, and PrepareReleaseBumped uses both |
| ConventionalCommits.FromCommitsMeaning | src/releases/conventional_commits.rs:48-98 | the summary's rule is `Major` if any commit is breaking, else `Minor` if any is a feature, else `Patch` if any is a fix, else none; features, fixes and breaking changes are collected in commit order, and a breaking commit without a separate message is listed only as breaking |
| ConventionalCommits.RuleIgnoresOrder | src/releases/conventional_commits.rs:54-90 | the rule does not depend on the order of the commits |
| ConventionalCommits.BreakingFeatureScenario | src/releases/conventional_commits.rs:156-174 | fix, breaking feature, feature gives `Major` with one feature, one fix and one breaking change |
| ConventionalCommits.SelectCommits | src/releases/conventional_commits.rs:30-43 | every commit kept passes the scope filter and is the parse of some trimmed message, and there are no more commits than messages; the exact selection, in order, is stated by the SelectCommitsInOrder row |
| ConventionalCommits.SelectCommitsInOrder | src/releases/conventional_commits.rs:30-43 | the kept commits are exactly the parsed messages at the increasing positions of the messages that parse, trimmed, and pass the scope filter: one per such message, in input order |
| ConventionalCommits.SelectCommitsComplete | src/releases/conventional_commits.rs:30-43 | every message that parses and passes the scope filter is kept |
| ConventionalCommits.ScopeSelectionScenarios | src/releases/conventional_commits.rs:255-314 | without scope filtering every commit is kept; with it an unscoped commit is kept, a scoped one only when the package lists its scope, and never when the package has no scopes |
| ConventionalCommits.PackageRule | src/releases/conventional_commits.rs:385-392 | without a prerelease label the rule is the primary rule of the same name; with one it is `Pre` of that label and rule |
| ConventionalCommits.PrepareReleaseForPackage | src/releases/conventional_commits.rs:367-430 | a release is attributed to the package; no commit calling for a bump means no release |
| ConventionalCommits.PrepareReleaseMeaning | src/releases/conventional_commits.rs:367-395 | an error reading the history is the outcome; no release exactly when no selected commit asks for a rule; otherwise a failed bump of the package by its rule (`Pre` with the label, if any) is the outcome |
| ConventionalCommits.PrepareReleaseBumped | src/releases/conventional_commits.rs:379-430 | when a selected commit asks for a rule and the bump succeeds, the release is the bumped version, attributed to the package, with the changelog section of the selected commits' fixes, features and breaking changes; a failure reporting or writing that section is the outcome instead |
| ConventionalCommits.PrepareAll | src/releases/conventional_commits.rs:344-354 | a successful loop collects at most one entry per package, each one `Prepared`; which entries, in which order, is stated by the PrepareAllInOrder and PrepareAllMeaning rows |
| ConventionalCommits.PrepareAllInOrder | src/releases/conventional_commits.rs:344-354 | a successful loop collects exactly one `Prepared` entry per package that gets a release, in package order, and nothing for the others |
| ConventionalCommits.PrepareAllMeaning | src/releases/conventional_commits.rs:344-354 | success means every package was prepared, and nothing is collected exactly when no package has a release |
| ConventionalCommits.PrepareAllReleases | src/releases/conventional_commits.rs:344-354 | every package's release is among those collected |
| ConventionalCommits.PrepareAllSucceeds | src/releases/conventional_commits.rs:344-354 | when every package can be prepared, collecting succeeds |
| ConventionalCommits.UpdateProject | src/releases/conventional_commits.rs:329-365 | no packages is `NoDefinedPackages`; success keeps the earlier releases and appends only prepared ones; a real run never succeeds without a release |
| ConventionalCommits.UpdateProjectOutcome | src/releases/conventional_commits.rs:344-365 | a successful run appends exactly the prepared releases; a dry run fails exactly when preparing a package fails, so never with `NoRelease` for want of a release; a real run whose packages were all prepared fails exactly when nothing was recorded before or prepared, and then with `NoRelease` |
| ConventionalCommits.NoReleaseWhenNothingToBump | src/releases/conventional_commits.rs:355-361 | when no package gets a release, a real run with nothing recorded fails with `NoRelease`, and a dry run succeeds recording nothing |
| ConventionalCommits.ReleaseRecorded | src/releases/conventional_commits.rs:344-354 | when every package can be prepared, each package's release is recorded |
| ConventionalCommits.BreakingFeatureBumpsToTwo | src/releases/conventional_commits.rs:379-394 | a breaking feature on 1.0.0 calls for `Major` and bumps to 2.0.0 |
| Changesets.ChangeTypeToString | src/step/releases/changesets.rs:99-108 | the `Display` of a change type: "breaking", "feature", "fix", or the custom source's text; that the text survives the conversions to and from file change types is stated by the DisplayPreserved row |
| Changesets.SourceToString | src/step/releases/changesets.rs:105 | a custom section source prints as its wrapped name or footer |
| Changesets.ToFileChangeType | src/step/releases/changesets.rs:110-119 | only a custom type becomes a custom file type, keeping its text |
| Changesets.FromFileChangeType | src/step/releases/changesets.rs:121-132 | only a custom file type becomes a custom type, sourced from a custom change type of that name |
| Changesets.FromSource | src/step/releases/changesets.rs:134-138 | a section source becomes the custom type of that source |
| Changesets.ChangeTypeRoundTrip | src/step/releases/changesets.rs:110-132 | converting to the file type and back is the identity, except that a footer source comes back as a custom change type of the same text |
| Changesets.FileChangeTypeRoundTrip | src/step/releases/changesets.rs:110-132 | converting a file type to a change type and back is the identity |
| Changesets.DisplayPreserved | src/step/releases/changesets.rs:99-132 | the round trip through the file type never changes how a change type prints |
| Changesets.ChangesOf | src/step/releases/changesets.rs:164-180 | each entry becomes one change-file change, in order |
| Changesets.NewlyRetired | src/step/releases/changesets.rs:164-178 | a prerelease retires nothing; otherwise the files retired are the entries' files not retired before, each once |
| Changesets.Distribute | src/step/releases/changesets.rs:153-184 | the packages keep their number, order and names; files are retired at most once, never twice across packages, and not during a prerelease |
| Changesets.DistributePending | src/step/releases/changesets.rs:155-181 | each package gains, after its earlier changes, the entries of its key when no earlier package had that key |
| Changesets.DistributeRetiresReceived | src/step/releases/changesets.rs:164-178 | the files retired are exactly the files of all entries handed out, less those retired before |
| Changesets.ActionsFor | src/step/releases/changesets.rs:167-176 | one action per retired file, a report in a dry run and a removal otherwise, for distinct paths |
| Changesets.AddReleasesFromChangeset | src/step/releases/changesets.rs:142-185 | without a change directory the packages are unchanged; an unreadable one is the only error; packages keep their number; a prerelease retires nothing; actions target distinct paths and match the run kind |
| Changesets.AddReleasesPending | src/step/releases/changesets.rs:153-184 | each package gains, after its earlier pending changes, the changes filed under its name (or "default") unless an earlier package took them |
| Changesets.AddReleasesRetired | src/step/releases/changesets.rs:164-178 | outside a prerelease, the actions are exactly one per file of the changes handed out |
| Changesets.SharedFileDeletedOnce | src/step/releases/changesets.rs:166-177 | a change file filed under two packages gives each its change and is deleted once |
| LogicalPackage.FindConflict | crates/knope-versioning/src/package.rs:26-28 | the first file from a position on whose version differs, or none when all agree |
| LogicalPackage.New | crates/knope-versioning/src/package.rs:24-39 | construction succeeds exactly for a non-empty list of agreeing files, storing them unchanged; no files is `NoPackages`; otherwise the first file and the earliest differing file are named |
| LogicalPackage.GetVersion | crates/knope-versioning/src/package.rs:48-50 | the package's version is every file's version |
| LogicalPackage.NewThenGetVersion | crates/knope-versioning/src/package.rs:24-50 | a package built from files that agree on a version has that version |
| LogicalPackage.SetFiles | crates/knope-versioning/src/package.rs:59-68 | success exactly when every file can be set, giving the per-file actions concatenated in file order; otherwise the error of the first file that failed |
| LogicalPackage.SetVersion | crates/knope-versioning/src/package.rs:59-68 | the same, for the package's files |
| GoMod.FirstModuleLine | src/releases/go.rs:10-13 | a found index points at a line starting with "module " |
| GoMod.FirstModuleLineMeaning | src/releases/go.rs:10-13 | nothing is found exactly when no line starts with "module ", and a found line is the first such |
| GoMod.ModuleLine | src/releases/go.rs:10-13 | the module line found starts with "module " and holds no line break |
| GoMod.ModulePath | src/releases/go.rs:14-17 | the module path is a non-empty, whitespace-free token |
| GoMod.SegmentMajor | src/releases/go.rs:22-30 | a recorded major comes from a segment starting with "v" and is a u64 |
| GoMod.SetVersion | src/releases/go.rs:4-46 | majors 0 and 1 leave the text alone; a missing module line is `MissingModuleLine`; a module line without a path is `MalformedModuleLine`; a path that already records the major leaves the text alone |
| GoMod.MajorSegmentReadsBack | src/releases/go.rs:22-38 | the segment "vN" written for a major reads back as N |
| GoMod.NewModulePath | src/releases/go.rs:36-44 | the module path for the new major; its segments are stated by the NewModulePathShape row |
| GoMod.NewModulePathShape | src/releases/go.rs:36-44 | the new module path is a whitespace-free token; its segments are the old path's, with a last segment recording a major replaced by "vN", and "vN" appended otherwise |
| GoMod.SetVersionModulePath | src/releases/go.rs:31-44 | after setting a major of 2 or more, the module line names the old path when it already records that major, and otherwise a path keeping the old earlier segments with "vN" replacing a recorded major or appended |
| GoMod.NewModuleLineReadsPath | src/releases/go.rs:36-44 | the new module line starts with "module " and its path reads back as the new path |
| GoMod.ReplacedNotModule | src/releases/go.rs:40-44 | replacing a module line's text by another module line turns no other line into a module line |
| GoMod.ModuleLineAfterReplace | src/releases/go.rs:36-44 | after the replacement, the module line found is the new module line |
| GoMod.SetVersionKeepsOtherLines | src/releases/go.rs:31-44 | after setting a major of 2 or more, the file is unchanged when its path already records that major; otherwise each line of the result is the old line with the module line's text replaced, so every line not containing that text is kept |
| GoMod.SetVersionRecordsMajor | src/releases/go.rs:36-44 | after setting a major of 2 or more, the file records exactly that major |
| GoMod.SetVersionIdempotent | src/releases/go.rs:31-44 | setting the same version twice gives the same text as setting it once |

## Left out

- The external parsers are parameters: the `semver` crate's version parser in the tag scan, and the conventional-commit parser. They are not part of this model, and neither is build metadata of a `semver` version.
- Reading files is not part of this model. `Package::try_from` and the reading and parsing of versioned files (src/releases/semver.rs:106-116) arrive as per-file results.
- Writing files is also not part of this model. In the older generation, writing a versioned file is a per-file outcome. In the newer one, it is the `setFile` parameter; how a `go.mod` or other versioned file is set there is left out.
- `get_current_versions_from_tag` (the call in `get_version`) is the `fromTags` input.
- The commit history after the last stable version is the `history` input.
- The `bump_version` called from `prepare_release_for_package` (src/releases/conventional_commits.rs:393-394) is a parameter. Its signature there differs from the one in src/releases/semver.rs, because the two files come from different revisions.
- Changelog rendering is a parameter. The output after the bump in `prepare_release_for_package` (src/releases/conventional_commits.rs:406-427) is the `writeChangelog` parameter. It covers the dry-run report and, in a real run, the changelog write and the git staging, with their failure as its error. Whether a package has a changelog is decided inside it.
- `bump_version_and_update_state` (src/releases/semver.rs:76-96) is left out: it is the stdout message and run-state update around `bump_version`.
- Git repository access is left out: opening the repository, enumerating references, and creating the release tag in `release` (src/releases/git.rs:19-47). The tag scan takes the reference names as a sequence.
- Where `release` dispatches (src/releases/mod.rs:58-72) is modelled, but the GitHub release itself is not part of this model.
- `create_change_file` (src/step/releases/changesets.rs:11-89) is left out: it is interactive prompts and a file write.
- Loading the change directory and deleting files are left out. The directory arrives as data, and deletions and dry-run reports come back as actions. The source ignores failures of both, so the model has no error for them.
- Debug logging is left out.
- SemverRules.Bump: the u64 increments of major, minor and patch are unbounded here. In the source they overflow at 2^64, which panics in a debug build.
- VersionValue.IncrementMajor: unbounded for the same reason, and so are IncrementMinor and IncrementPatch.
- SemverRules.ContinuedNumber: the u16 prerelease number continues as in a release build, wrapping 65535 to 0. A debug build would panic.
- Changesets.SourceToString: the `Display` of `ChangelogSectionSource` is not part of this model. It is taken to print the wrapped name or footer.
- GoMod.SetVersion: the `parts.last()` error (src/releases/go.rs:19-21) cannot happen, because splitting a string always gives at least one part, so it is not modelled.
- GoMod.SetVersionIdempotent: proved only for `go.mod` texts without '\r' and majors below 2^64. Rust's `lines()` drops a '\r' before a line break, which the proofs do not follow through the replacement.
- GoMod.SetVersionRecordsMajor: the same restriction as SetVersionIdempotent.
- GoMod.SetVersionModulePath: the same restriction as SetVersionIdempotent; for a `go.mod` with "\r\n" line ends the new module path is not stated.
- GoMod.SetVersionKeepsOtherLines: the same restriction as SetVersionIdempotent; for a `go.mod` with "\r\n" line ends, what the rewrite keeps is not stated.
- GoMod.ModuleLineAfterReplace: proved only for texts without '\r', for the reason given under SetVersionIdempotent.
- The `Release` record of src/releases/mod.rs has no package name, yet src/releases/git.rs and src/releases/conventional_commits.rs read and set one. The model's `Release` carries it, following its users.
- The tag scan keeps the last stable tag in enumeration order and the first prerelease after it; it is not a maximum of the versions.

## Findings

| source | as written | input that shows it | evidently intended | confidence | as-written member | corrected member |
|---|---|---|---|---|---|---|
| src/releases/git.rs:75 | `tag.replace(&pattern, "")` removes every occurrence of the tag pattern, not just the leading one | the tag "v1.1.0-dev.0" with the default pattern "v" hands the parser "1.1.0-de.0" | strip only the leading pattern, so the parser gets "1.1.0-dev.0", the text `tag_name` wrote | high, not executed | GitTags.AsWrittenReadsDevTag, GitTags.CurrentVersionsFromTagsAsWritten | GitTags.TagRoundTrip, GitTags.CurrentVersionsFromTags |
