/** One logical package of the versioning crate: a non-empty set of versioned files that all
    carry the same version, read as one version and set together. */
module LogicalPackage {
  import opened Base
  import opened Text
  import opened VersionValue

  /** A file that records the package's version, with the version found in it. */
  datatype VersionedFile = VersionedFile(path: String, version: Version)

  datatype Package = Package(versionedFiles: seq<VersionedFile>)

  datatype NewError = InconsistentVersions(first: VersionedFile, conflict: VersionedFile) | NoPackages

  /** What construction guarantees: at least one file, and every file has the first
      file's version. */
  ghost predicate Valid(p: Package) {
    0 < |p.versionedFiles| && forall i | 0 <= i < |p.versionedFiles| :: p.versionedFiles[i].version == p.versionedFiles[0].version
  }

  /** The index of the first file from `from` on whose version is not `v`. */
  function FindConflict(files: seq<VersionedFile>, v: Version, from: nat): (r: Option<nat>)
    requires from <= |files|
    ensures r.None? ==> forall i | from <= i < |files| :: files[i].version == v
    ensures r.Some? ==> from <= r.value < |files| && files[r.value].version != v
                        && forall i | from <= i < r.value :: files[i].version == v
    decreases |files| - from
  {
    if from == |files| then None
    else if files[from].version != v then Some(from)
    else FindConflict(files, v, from + 1)
  }

  /** `Package::new`: no files is `NoPackages`; a file whose version differs from the
      first file's is reported with the first file, the earliest such file being named;
      otherwise the files form a package. */
  function New(files: seq<VersionedFile>): (r: Result<Package, NewError>)
    ensures r.Ok? <==> 0 < |files| && forall i | 0 <= i < |files| :: files[i].version == files[0].version
    ensures r.Ok? ==> r.value.versionedFiles == files && Valid(r.value)
    ensures r == Err(NoPackages) <==> |files| == 0
    ensures r.Err? && r.error.InconsistentVersions? ==>
              && r.error.first == files[0]
              && exists k | 0 < k < |files| :: r.error.conflict == files[k] && files[k].version != files[0].version
                                              && forall i | 0 <= i < k :: files[i].version == files[0].version
  {
    if |files| == 0 then Err(NoPackages)
    else
      match FindConflict(files, files[0].version, 0)
      case Some(k) => Err(InconsistentVersions(files[0], files[k]))
      case None => Ok(Package(files))
  }

  /** `get_version`: the package's version, which every file carries. */
  function GetVersion(p: Package): (r: Version)
    requires Valid(p)
    ensures forall i | 0 <= i < |p.versionedFiles| :: p.versionedFiles[i].version == r
  {
    p.versionedFiles[0].version
  }

  /** A package built from files that agree has their common version. */
  lemma NewThenGetVersion(files: seq<VersionedFile>, v: Version)
    requires 0 < |files| && forall i | 0 <= i < |files| :: files[i].version == v
    ensures New(files).Ok? && GetVersion(New(files).value) == v
  {
  }

  /** The actions of all files, in file order. */
  function Flatten<A>(parts: seq<seq<A>>): seq<A>
    decreases |parts|
  {
    if |parts| == 0 then [] else parts[0] + Flatten(parts[1..])
  }

  /** The actions each file needs, in file order. */
  function ActionsPerFile<G, A, E>(files: seq<VersionedFile>, newVersion: Version, goVersioning: G,
                                   setFile: (VersionedFile, Version, G) -> Result<seq<A>, E>): seq<seq<A>>
    requires forall i | 0 <= i < |files| :: setFile(files[i], newVersion, goVersioning).Ok?
  {
    seq(|files|, i requires 0 <= i < |files| => setFile(files[i], newVersion, goVersioning).value)
  }

  /** Asks every file, in order, for its actions; the first failure is the result. */
  function SetFiles<G, A, E>(files: seq<VersionedFile>, newVersion: Version, goVersioning: G,
                             setFile: (VersionedFile, Version, G) -> Result<seq<A>, E>)
    : (r: Result<seq<A>, E>)
    ensures r.Ok? <==> forall i | 0 <= i < |files| :: setFile(files[i], newVersion, goVersioning).Ok?
    ensures r.Ok? ==> r.value == Flatten(ActionsPerFile(files, newVersion, goVersioning, setFile))
    ensures r.Err? ==> exists k | 0 <= k < |files| ::
                         && setFile(files[k], newVersion, goVersioning) == Err(r.error)
                         && forall i | 0 <= i < k :: setFile(files[i], newVersion, goVersioning).Ok?
    decreases |files|
  {
    if |files| == 0 then Ok([])
    else
      var first :- setFile(files[0], newVersion, goVersioning);
      var rest := SetFiles(files[1..], newVersion, goVersioning, setFile);
      SetFilesStep(files, newVersion, goVersioning, setFile, rest);
      if rest.Err? then Err(rest.error) else Ok(first + rest.value)
  }

  /** The step of `SetFiles`: what the rest of the files give, seen from the whole. */
  lemma SetFilesStep<G, A, E>(files: seq<VersionedFile>, newVersion: Version, goVersioning: G,
                              setFile: (VersionedFile, Version, G) -> Result<seq<A>, E>, rest: Result<seq<A>, E>)
    requires 0 < |files| && setFile(files[0], newVersion, goVersioning).Ok?
    requires rest.Ok? <==> forall i | 0 <= i < |files| - 1 :: setFile(files[1..][i], newVersion, goVersioning).Ok?
    requires rest.Ok? ==> rest.value == Flatten(ActionsPerFile(files[1..], newVersion, goVersioning, setFile))
    requires rest.Err? ==> exists k | 0 <= k < |files| - 1 ::
                             && setFile(files[1..][k], newVersion, goVersioning) == Err(rest.error)
                             && forall i | 0 <= i < k :: setFile(files[1..][i], newVersion, goVersioning).Ok?
    ensures rest.Ok? <==> forall i | 0 <= i < |files| :: setFile(files[i], newVersion, goVersioning).Ok?
    ensures rest.Ok? ==>
              setFile(files[0], newVersion, goVersioning).value + rest.value
                == Flatten(ActionsPerFile(files, newVersion, goVersioning, setFile))
    ensures rest.Err? ==> exists k | 0 <= k < |files| ::
                            && setFile(files[k], newVersion, goVersioning) == Err(rest.error)
                            && forall i | 0 <= i < k :: setFile(files[i], newVersion, goVersioning).Ok?
  {
    assert forall i | 1 <= i < |files| :: files[i] == files[1..][i - 1];
    if rest.Ok? {
      assert ActionsPerFile(files, newVersion, goVersioning, setFile)[1..]
               == ActionsPerFile(files[1..], newVersion, goVersioning, setFile);
    } else {
      var k :| 0 <= k < |files| - 1
               && setFile(files[1..][k], newVersion, goVersioning) == Err(rest.error)
               && forall i | 0 <= i < k :: setFile(files[1..][i], newVersion, goVersioning).Ok?;
      assert setFile(files[k + 1], newVersion, goVersioning) == Err(rest.error);
    }
  }

  /** `set_version`: asks every file, in order, for the actions that set it to the new
      version; the first file that fails decides the error, otherwise the actions of all
      files are concatenated in order. How one file is set (including the rules of a
      `go.mod` file) is the `setFile` parameter. */
  function SetVersion<G, A, E>(p: Package, newVersion: Version, goVersioning: G,
                               setFile: (VersionedFile, Version, G) -> Result<seq<A>, E>)
    : (r: Result<seq<A>, E>)
    ensures r.Ok? <==> forall i | 0 <= i < |p.versionedFiles| :: setFile(p.versionedFiles[i], newVersion, goVersioning).Ok?
    ensures r.Ok? ==> r.value == Flatten(ActionsPerFile(p.versionedFiles, newVersion, goVersioning, setFile))
    ensures r.Err? ==> exists k | 0 <= k < |p.versionedFiles| ::
                         && setFile(p.versionedFiles[k], newVersion, goVersioning) == Err(r.error)
                         && forall i | 0 <= i < k :: setFile(p.versionedFiles[i], newVersion, goVersioning).Ok?
  {
    SetFiles(p.versionedFiles, newVersion, goVersioning, setFile)
  }
}
