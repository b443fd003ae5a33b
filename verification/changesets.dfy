/** Change files (the older engine generation's changeset support): the change-type
    vocabulary shared with the `changesets` format, and how the pending change files are
    handed to the packages they name, each file being retired at most once. */
module Changesets {
  import opened Base
  import opened Text

  /** Where a custom changelog section takes its entries from. */
  datatype ChangelogSectionSource = CustomChangeType(name: String) | CommitFooter(footer: String)

  /** The text of a section source: the wrapped name or footer. */
  function SourceToString(source: ChangelogSectionSource): (r: String)
    ensures source.CustomChangeType? ==> r == source.name
    ensures source.CommitFooter? ==> r == source.footer
  {
    match source
    case CustomChangeType(name) => name
    case CommitFooter(footer) => footer
  }

  /** The engine's change types. */
  datatype ChangeType = Breaking | Feature | Fix | Custom(source: ChangelogSectionSource)

  /** The change types of the change-file format. */
  datatype FileChangeType = Major | Minor | Patch | FileCustom(name: String)

  /** `Display for ChangeType`. */
  function ChangeTypeToString(t: ChangeType): String {
    match t
    case Breaking => "breaking"
    case Feature => "feature"
    case Fix => "fix"
    case Custom(custom) => SourceToString(custom)
  }

  /** `From<ChangeType> for changesets::ChangeType`: breaking, feature and fix map to major,
      minor and patch; a custom type keeps its text. */
  function ToFileChangeType(t: ChangeType): (r: FileChangeType)
    ensures r.FileCustom? <==> t.Custom?
    ensures t.Custom? ==> r.name == ChangeTypeToString(t)
  {
    match t
    case Breaking => Major
    case Feature => Minor
    case Fix => Patch
    case Custom(custom) => FileCustom(SourceToString(custom))
  }

  /** `From<&changesets::ChangeType> for ChangeType`: a custom file type becomes a custom
      change type. */
  function FromFileChangeType(t: FileChangeType): (r: ChangeType)
    ensures r.Custom? <==> t.FileCustom?
    ensures t.FileCustom? ==> r.source == CustomChangeType(t.name)
  {
    match t
    case Major => Breaking
    case Minor => Feature
    case Patch => Fix
    case FileCustom(custom) => Custom(CustomChangeType(custom))
  }

  /** `From<ChangelogSectionSource> for ChangeType`. */
  function FromSource(source: ChangelogSectionSource): (r: ChangeType)
    ensures r.Custom? && r.source == source
  {
    Custom(source)
  }

  /** Reading a change type written to a change file gives it back, except that a footer
      type comes back as a custom type of the same text. */
  lemma ChangeTypeRoundTrip(t: ChangeType)
    ensures !(t.Custom? && t.source.CommitFooter?) ==> FromFileChangeType(ToFileChangeType(t)) == t
    ensures t.Custom? && t.source.CommitFooter? ==>
              FromFileChangeType(ToFileChangeType(t)) == Custom(CustomChangeType(t.source.footer))
  {
  }

  /** Writing a change type read from a change file gives the file's type back. */
  lemma FileChangeTypeRoundTrip(t: FileChangeType)
    ensures ToFileChangeType(FromFileChangeType(t)) == t
  {
  }

  /** The text of a change type survives both conversions. */
  lemma DisplayPreserved(t: ChangeType)
    ensures ChangeTypeToString(FromFileChangeType(ToFileChangeType(t))) == ChangeTypeToString(t)
  {
  }

  // ---------------------------------------------------------------------------------------
  // Distributing change files to packages

  /** One change of one change file for one package. */
  datatype ChangesetEntry = ChangesetEntry(fileName: String, changeType: FileChangeType, summary: String)

  /** A pending change of a package. Changes from commits are carried as their text; their
      structure belongs to the commit analysis. */
  datatype Change = ConventionalCommit(text: String) | ChangeSet(entry: ChangesetEntry)

  datatype Package = Package(name: Option<String>, pendingChanges: seq<Change>)

  /** The change directory as loaded: absent, unreadable, or the entries per package name. */
  datatype ChangesetDirectory = Missing | Unreadable(message: String) | Loaded(releases: map<String, seq<ChangesetEntry>>)

  datatype Error = CouldNotReadChangeSet(message: String)

  /** What retiring a change file does: delete it, or in a dry run report the deletion. */
  datatype Action = RemoveFile(path: String) | ReportWouldDelete(path: String)

  const DEFAULT_CHANGESET_PACKAGE_NAME: String := "default"

  function ChangesetPath(fileName: String): String {
    ".changeset/" + fileName
  }

  /** The name under which a package's change-file entries are filed. */
  function Key(p: Package): String {
    p.name.UnwrapOr(DEFAULT_CHANGESET_PACKAGE_NAME)
  }

  function ChangesOf(entries: seq<ChangesetEntry>): (r: seq<Change>)
    ensures |r| == |entries| && forall i | 0 <= i < |entries| :: r[i] == ChangeSet(entries[i])
  {
    seq(|entries|, i requires 0 <= i < |entries| => ChangeSet(entries[i]))
  }

  function FileNames(entries: seq<ChangesetEntry>): set<String> {
    set i | 0 <= i < |entries| :: entries[i].fileName
  }

  predicate Distinct(xs: seq<String>) {
    forall i, j | 0 <= i < j < |xs| :: xs[i] != xs[j]
  }

  function FilesOf(xs: seq<String>): set<String> {
    set i | 0 <= i < |xs| :: xs[i]
  }

  lemma FilesOfAppend(a: seq<String>, b: seq<String>)
    ensures FilesOf(a + b) == FilesOf(a) + FilesOf(b)
  {
    forall x | x in FilesOf(a + b) ensures x in FilesOf(a) + FilesOf(b) {
      var i :| 0 <= i < |a + b| && (a + b)[i] == x;
      if i >= |a| { assert b[i - |a|] == x; }
    }
    forall x | x in FilesOf(a) + FilesOf(b) ensures x in FilesOf(a + b) {
      if x in FilesOf(a) {
        var i :| 0 <= i < |a| && a[i] == x;
        assert (a + b)[i] == x;
      } else {
        var i :| 0 <= i < |b| && b[i] == x;
        assert (a + b)[|a| + i] == x;
      }
    }
  }

  /** The files of `entries` retired now, in order: none for a prerelease, and otherwise
      each file once, unless it was retired already. */
  function NewlyRetired(entries: seq<ChangesetEntry>, retired: set<String>, isPrerelease: bool): (r: seq<String>)
    ensures isPrerelease ==> r == []
    ensures Distinct(r)
    ensures forall i | 0 <= i < |r| :: r[i] !in retired
    ensures !isPrerelease ==> FilesOf(r) == FileNames(entries) - retired
    decreases |entries|
  {
    if isPrerelease || |entries| == 0 then []
    else
      var f := entries[0].fileName;
      var rest := entries[1..];
      assert FileNames(entries) == {f} + FileNames(rest) by {
        assert forall i | 1 <= i < |entries| :: entries[i] == rest[i - 1];
        assert forall i | 0 <= i < |rest| :: rest[i] == entries[i + 1];
      }
      if f in retired then NewlyRetired(rest, retired, isPrerelease)
      else
        var tail := NewlyRetired(rest, retired + {f}, isPrerelease);
        FilesOfAppend([f], tail);
        assert FilesOf([f]) == {f} by {
          assert [f][0] == f;
          assert forall x | x in FilesOf([f]) :: x == f;
        }
        [f] + tail
  }

  /** `k` has no earlier package with the same key. */
  predicate FirstWithKey(packages: seq<Package>, i: int)
    requires 0 <= i < |packages|
  {
    forall j | 0 <= j < i :: Key(packages[j]) != Key(packages[i])
  }

  /** The entries package `i` receives: those filed under its key, when it is the first
      package with that key. */
  function Received(packages: seq<Package>, releases: map<String, seq<ChangesetEntry>>, i: int): seq<ChangesetEntry>
    requires 0 <= i < |packages|
  {
    var key := Key(packages[i]);
    if key in releases && FirstWithKey(packages, i) then releases[key] else []
  }

  /** Every entry handed out, package by package. */
  function AllReceived(packages: seq<Package>, releases: map<String, seq<ChangesetEntry>>, n: nat): seq<ChangesetEntry>
    requires n <= |packages|
  {
    if n == 0 then [] else AllReceived(packages, releases, n - 1) + Received(packages, releases, n - 1)
  }

  /** The loop over the packages: each takes (and removes) the entries filed under its key
      and retires their files. Returns the packages and the files retired, in order. */
  function Distribute(packages: seq<Package>, releases: map<String, seq<ChangesetEntry>>, retired: set<String>,
                      isPrerelease: bool): (r: (seq<Package>, seq<String>))
    ensures |r.0| == |packages|
    ensures forall i | 0 <= i < |packages| :: r.0[i].name == packages[i].name
    ensures isPrerelease ==> r.1 == []
    ensures Distinct(r.1)
    ensures forall i | 0 <= i < |r.1| :: r.1[i] !in retired
    decreases |packages|
  {
    if |packages| == 0 then ([], [])
    else
      var p := packages[0];
      var key := Key(p);
      if key in releases then
        var entries := releases[key];
        var now := NewlyRetired(entries, retired, isPrerelease);
        var rest := Distribute(packages[1..], releases - {key}, retired + FilesOf(now), isPrerelease);
        RetiredAppend(now, rest.1, retired);
        ([p.(pendingChanges := p.pendingChanges + ChangesOf(entries))] + rest.0, now + rest.1)
      else
        var rest := Distribute(packages[1..], releases, retired, isPrerelease);
        ([p] + rest.0, rest.1)
  }

  /** Files retired now and files retired later, none retired twice. */
  lemma RetiredAppend(now: seq<String>, later: seq<String>, retired: set<String>)
    requires Distinct(now) && Distinct(later)
    requires forall i | 0 <= i < |now| :: now[i] !in retired
    requires forall i | 0 <= i < |later| :: later[i] !in retired + FilesOf(now)
    ensures Distinct(now + later)
    ensures forall i | 0 <= i < |now + later| :: (now + later)[i] !in retired
  {
    var all := now + later;
    forall i, j | 0 <= i < j < |all| ensures all[i] != all[j] {
      if j >= |now| && i < |now| {
        assert all[i] == now[i] && now[i] in FilesOf(now);
        assert all[j] == later[j - |now|];
      } else if i >= |now| {
        assert all[i] == later[i - |now|] && all[j] == later[j - |now|];
      }
    }
    forall i | 0 <= i < |all| ensures all[i] !in retired {
      if i >= |now| { assert all[i] == later[i - |now|]; }
    }
  }

  /** Dropping the first package shifts what the others receive: removing the first
      package's key from the entries does not change what any later package receives. */
  lemma ReceivedShift(packages: seq<Package>, releases: map<String, seq<ChangesetEntry>>, i: int)
    requires 0 < i < |packages|
    ensures Received(packages[1..], releases - {Key(packages[0])}, i - 1) == Received(packages, releases, i)
    ensures Key(packages[0]) !in releases ==> Received(packages[1..], releases, i - 1) == Received(packages, releases, i)
  {
    var rest := packages[1..];
    assert rest[i - 1] == packages[i];
    assert FirstWithKey(rest, i - 1) && Key(packages[0]) != Key(packages[i]) <==> FirstWithKey(packages, i) by {
      if FirstWithKey(rest, i - 1) && Key(packages[0]) != Key(packages[i]) {
        forall j | 0 <= j < i ensures Key(packages[j]) != Key(packages[i]) {
          if 0 < j { assert rest[j - 1] == packages[j]; }
        }
      }
      if FirstWithKey(packages, i) {
        forall j | 0 <= j < i - 1 ensures Key(rest[j]) != Key(rest[i - 1]) {
          assert rest[j] == packages[j + 1];
        }
      }
    }
  }

  /** Every package keeps its earlier pending changes and gains, after them, the changes
      it receives. */
  lemma {:induction false} DistributePending(packages: seq<Package>, releases: map<String, seq<ChangesetEntry>>,
                                             retired: set<String>, isPrerelease: bool, i: int)
    requires 0 <= i < |packages|
    ensures Distribute(packages, releases, retired, isPrerelease).0[i].pendingChanges
              == packages[i].pendingChanges + ChangesOf(Received(packages, releases, i))
    decreases |packages|
  {
    var key := Key(packages[0]);
    var out := Distribute(packages, releases, retired, isPrerelease).0;
    if i == 0 {
      PendingOfFirst(packages, releases, retired, isPrerelease);
    } else {
      var releases' := if key in releases then releases - {key} else releases;
      var retired' :=
        if key in releases then retired + FilesOf(NewlyRetired(releases[key], retired, isPrerelease)) else retired;
      calc {
        out[i].pendingChanges;
        { DistributeLater(packages, releases, retired, isPrerelease, i); }
        Distribute(packages[1..], releases', retired', isPrerelease).0[i - 1].pendingChanges;
        { DistributePending(packages[1..], releases', retired', isPrerelease, i - 1); }
        packages[1..][i - 1].pendingChanges + ChangesOf(Received(packages[1..], releases', i - 1));
        { assert packages[1..][i - 1] == packages[i];
          ReceivedShift(packages, releases, i); }
        packages[i].pendingChanges + ChangesOf(Received(packages, releases, i));
      }
    }
  }

  lemma PendingOfFirst(packages: seq<Package>, releases: map<String, seq<ChangesetEntry>>, retired: set<String>,
                       isPrerelease: bool)
    requires 0 < |packages|
    ensures Distribute(packages, releases, retired, isPrerelease).0[0].pendingChanges
              == packages[0].pendingChanges + ChangesOf(Received(packages, releases, 0))
  {
    DistributeFirst(packages, releases, retired, isPrerelease);
    assert FirstWithKey(packages, 0);
    assert ChangesOf([]) == [];
  }

  /** What the first package becomes. */
  lemma DistributeFirst(packages: seq<Package>, releases: map<String, seq<ChangesetEntry>>, retired: set<String>,
                        isPrerelease: bool)
    requires 0 < |packages|
    ensures var p, key := packages[0], Key(packages[0]);
            Distribute(packages, releases, retired, isPrerelease).0[0]
              == if key in releases then p.(pendingChanges := p.pendingChanges + ChangesOf(releases[key])) else p
  {
  }

  /** A later package is handled by the loop over the remaining packages. */
  lemma DistributeLater(packages: seq<Package>, releases: map<String, seq<ChangesetEntry>>, retired: set<String>,
                        isPrerelease: bool, i: int)
    requires 0 < i < |packages|
    ensures var key := Key(packages[0]);
            key in releases ==>
              var now := NewlyRetired(releases[key], retired, isPrerelease);
              Distribute(packages, releases, retired, isPrerelease).0[i]
                == Distribute(packages[1..], releases - {key}, retired + FilesOf(now), isPrerelease).0[i - 1]
    ensures Key(packages[0]) !in releases ==>
              Distribute(packages, releases, retired, isPrerelease).0[i]
                == Distribute(packages[1..], releases, retired, isPrerelease).0[i - 1]
  {
  }

  lemma FileNamesAppend(a: seq<ChangesetEntry>, b: seq<ChangesetEntry>)
    ensures FileNames(a + b) == FileNames(a) + FileNames(b)
  {
    forall x | x in FileNames(a + b) ensures x in FileNames(a) + FileNames(b) {
      var i :| 0 <= i < |a + b| && (a + b)[i].fileName == x;
      if i >= |a| { assert b[i - |a|].fileName == x; }
    }
    forall x | x in FileNames(a) + FileNames(b) ensures x in FileNames(a + b) {
      if x in FileNames(a) {
        var i :| 0 <= i < |a| && a[i].fileName == x;
        assert (a + b)[i].fileName == x;
      } else {
        var i :| 0 <= i < |b| && b[i].fileName == x;
        assert (a + b)[|a| + i].fileName == x;
      }
    }
  }

  /** Everything handed to the packages, seen from the second package on. */
  lemma {:induction false} AllReceivedShift(packages: seq<Package>, releases: map<String, seq<ChangesetEntry>>, n: nat)
    requires 0 < n <= |packages|
    ensures Key(packages[0]) in releases ==>
              AllReceived(packages, releases, n)
                == releases[Key(packages[0])] + AllReceived(packages[1..], releases - {Key(packages[0])}, n - 1)
    ensures Key(packages[0]) !in releases ==>
              AllReceived(packages, releases, n) == AllReceived(packages[1..], releases, n - 1)
    decreases n
  {
    var key := Key(packages[0]);
    var rest := packages[1..];
    if n == 1 {
      assert FirstWithKey(packages, 0);
      assert AllReceived(packages, releases, 1) == [] + Received(packages, releases, 0);
      assert AllReceived(rest, releases - {key}, 0) == [] && AllReceived(rest, releases, 0) == [];
    } else {
      AllReceivedShift(packages, releases, n - 1);
      ReceivedShift(packages, releases, n - 1);
      var last := Received(packages, releases, n - 1);
      assert AllReceived(packages, releases, n) == AllReceived(packages, releases, n - 1) + last;
      if key in releases {
        var before := AllReceived(rest, releases - {key}, n - 2);
        assert AllReceived(rest, releases - {key}, n - 1) == before + last;
        assert (releases[key] + before) + last == releases[key] + (before + last);
      } else {
        assert AllReceived(rest, releases, n - 1) == AllReceived(rest, releases, n - 2) + last;
      }
    }
  }

  /** Outside a prerelease, the files retired are exactly the files of all entries handed
      out that were not retired before. */
  lemma {:induction false} DistributeRetiresReceived(packages: seq<Package>, releases: map<String, seq<ChangesetEntry>>,
                                                     retired: set<String>)
    ensures FilesOf(Distribute(packages, releases, retired, false).1)
              == FileNames(AllReceived(packages, releases, |packages|)) - retired
    decreases |packages|
  {
    if 0 < |packages| {
      var key := Key(packages[0]);
      AllReceivedShift(packages, releases, |packages|);
      if key in releases {
        var entries := releases[key];
        var now := NewlyRetired(entries, retired, false);
        var retired' := retired + FilesOf(now);
        var later := Distribute(packages[1..], releases - {key}, retired', false).1;
        var receivedLater := AllReceived(packages[1..], releases - {key}, |packages[1..]|);
        calc {
          FilesOf(Distribute(packages, releases, retired, false).1);
          FilesOf(now + later);
          { FilesOfAppend(now, later); }
          FilesOf(now) + FilesOf(later);
          { DistributeRetiresReceived(packages[1..], releases - {key}, retired');
            RetiredUnion(FileNames(entries), FileNames(receivedLater), retired, FilesOf(now), FilesOf(later)); }
          (FileNames(entries) + FileNames(receivedLater)) - retired;
          { FileNamesAppend(entries, receivedLater); }
          FileNames(entries + receivedLater) - retired;
          { assert |packages[1..]| == |packages| - 1; }
          FileNames(AllReceived(packages, releases, |packages|)) - retired;
        }
      } else {
        calc {
          FilesOf(Distribute(packages, releases, retired, false).1);
          FilesOf(Distribute(packages[1..], releases, retired, false).1);
          { DistributeRetiresReceived(packages[1..], releases, retired); }
          FileNames(AllReceived(packages[1..], releases, |packages[1..]|)) - retired;
          { assert |packages[1..]| == |packages| - 1; }
          FileNames(AllReceived(packages, releases, |packages|)) - retired;
        }
      }
    } else {
      assert FilesOf([]) == {};
      assert FileNames([]) == {};
    }
  }

  lemma RetiredUnion(a: set<String>, b: set<String>, retired: set<String>, now: set<String>, later: set<String>)
    requires now == a - retired && later == b - (retired + now)
    ensures now + later == (a + b) - retired
  {
  }

  function ActionFor(fileName: String, dryRun: bool): Action {
    if dryRun then ReportWouldDelete(ChangesetPath(fileName)) else RemoveFile(ChangesetPath(fileName))
  }

  /** The action for each of a set of file names. */
  function ActionsForNames(names: set<String>, dryRun: bool): set<Action> {
    set f | f in names :: ActionFor(f, dryRun)
  }

  function ActionSet(actions: seq<Action>): set<Action> {
    set i | 0 <= i < |actions| :: actions[i]
  }

  /** One action per retired file, in order; distinct files give distinct paths. */
  function ActionsFor(files: seq<String>, dryRun: bool): (r: seq<Action>)
    requires Distinct(files)
    ensures |r| == |files| && forall i | 0 <= i < |files| :: r[i] == ActionFor(files[i], dryRun)
    ensures forall i, j | 0 <= i < j < |r| :: r[i].path != r[j].path
  {
    var actions := seq(|files|, i requires 0 <= i < |files| => ActionFor(files[i], dryRun));
    assert forall i, j | 0 <= i < j < |files| :: actions[i].path != actions[j].path by {
      forall i, j | 0 <= i < j < |files| ensures actions[i].path != actions[j].path {
        ChangesetPathInjective(files[i], files[j]);
      }
    }
    actions
  }

  lemma ChangesetPathInjective(a: String, b: String)
    ensures ChangesetPath(a) == ChangesetPath(b) ==> a == b
  {
    if ChangesetPath(a) == ChangesetPath(b) {
      assert a == ChangesetPath(a)[|".changeset/"|..];
    }
  }

  /** `add_releases_from_changeset`: without a change directory the packages are returned
      as they are; an unreadable directory is an error; otherwise every package gets the
      entries filed under its name (or "default"), and each change file handed out is
      deleted, or reported in a dry run, once, unless the release is a prerelease. */
  function AddReleasesFromChangeset(packages: seq<Package>, directory: ChangesetDirectory, isPrerelease: bool,
                                    dryRun: bool)
    : (r: Result<(seq<Package>, seq<Action>), Error>)
    ensures directory.Missing? ==> r == Ok((packages, []))
    ensures r.Err? <==> directory.Unreadable?
    ensures r.Ok? ==> |r.value.0| == |packages|
    ensures r.Ok? && isPrerelease ==> r.value.1 == []
    ensures r.Ok? ==> forall i | 0 <= i < |r.value.1| :: r.value.1[i] == (if dryRun then ReportWouldDelete(r.value.1[i].path) else RemoveFile(r.value.1[i].path))
    ensures r.Ok? ==> forall i, j | 0 <= i < j < |r.value.1| :: r.value.1[i].path != r.value.1[j].path
  {
    match directory
    case Missing => Ok((packages, []))
    case Unreadable(message) => Err(CouldNotReadChangeSet(message))
    case Loaded(releases) =>
      var (out, files) := Distribute(packages, releases, {}, isPrerelease);
      Ok((out, ActionsFor(files, dryRun)))
  }

  /** What each package gains: package `i` gains, after its earlier pending changes, the
      changes filed under its key when no earlier package has that key. */
  lemma AddReleasesPending(packages: seq<Package>, releases: map<String, seq<ChangesetEntry>>, isPrerelease: bool,
                           dryRun: bool, i: int)
    requires 0 <= i < |packages|
    ensures AddReleasesFromChangeset(packages, Loaded(releases), isPrerelease, dryRun).Ok?
    ensures AddReleasesFromChangeset(packages, Loaded(releases), isPrerelease, dryRun).value.0[i]
              == packages[i].(pendingChanges := packages[i].pendingChanges + ChangesOf(Received(packages, releases, i)))
  {
    DistributePending(packages, releases, {}, isPrerelease, i);
  }

  /** Which files are retired: outside a prerelease, one action for each file of the
      changes handed out to the packages, and no other. */
  lemma AddReleasesRetired(packages: seq<Package>, releases: map<String, seq<ChangesetEntry>>, dryRun: bool)
    ensures AddReleasesFromChangeset(packages, Loaded(releases), false, dryRun).Ok?
    ensures ActionSet(AddReleasesFromChangeset(packages, Loaded(releases), false, dryRun).value.1)
              == ActionsForNames(FileNames(AllReceived(packages, releases, |packages|)), dryRun)
  {
    var files := Distribute(packages, releases, {}, false).1;
    var actions := ActionsFor(files, dryRun);
    assert AddReleasesFromChangeset(packages, Loaded(releases), false, dryRun).value.1 == actions;
    var names := FileNames(AllReceived(packages, releases, |packages|));
    assert FilesOf(files) == names by {
      DistributeRetiresReceived(packages, releases, {});
    }
    ActionsForFiles(files, names, actions, dryRun);
  }

  lemma ActionsForFiles(files: seq<String>, names: set<String>, actions: seq<Action>, dryRun: bool)
    requires FilesOf(files) == names
    requires |actions| == |files| && forall i | 0 <= i < |files| :: actions[i] == ActionFor(files[i], dryRun)
    ensures ActionSet(actions) == ActionsForNames(names, dryRun)
  {
    var expected := ActionsForNames(names, dryRun);
    forall i | 0 <= i < |actions| ensures actions[i] in expected {
      assert files[i] in FilesOf(files);
    }
    forall f | f in names ensures ActionFor(f, dryRun) in ActionSet(actions) {
      var i :| 0 <= i < |files| && files[i] == f;
      assert actions[i] == ActionFor(f, dryRun);
    }
  }

  /** Two packages sharing a change file: the file is deleted once. */
  lemma SharedFileDeletedOnce(a: ChangesetEntry, b: ChangesetEntry)
    requires a.fileName == b.fileName
    ensures
      var packages := [Package(Some("first"), []), Package(Some("second"), [])];
      var releases := map["first" := [a], "second" := [b]];
      AddReleasesFromChangeset(packages, Loaded(releases), false, false)
        == Ok(([Package(Some("first"), [ChangeSet(a)]), Package(Some("second"), [ChangeSet(b)])],
               [RemoveFile(ChangesetPath(a.fileName))]))
  {
    var packages := [Package(Some("first"), []), Package(Some("second"), [])];
    var releases := map["first" := [a], "second" := [b]];
    assert Key(packages[0]) == "first";
    assert Key(packages[1]) == "second";
    assert "first" != "second" by { assert "first"[0] != "second"[0]; }
    assert releases - {"first"} == map["second" := [b]];
    assert NewlyRetired([a], {}, false) == [a.fileName] by {
      assert [a][1..] == [];
    }
    assert NewlyRetired([b], {a.fileName}, false) == [] by {
      assert [b][1..] == [];
    }
    assert packages[1..] == [packages[1]];
    assert packages[1..][1..] == [];
    assert ChangesOf([a]) == [ChangeSet(a)];
    assert ChangesOf([b]) == [ChangeSet(b)];
    assert FilesOf([a.fileName]) == {a.fileName} by {
      assert [a.fileName][0] == a.fileName;
      assert forall x | x in FilesOf([a.fileName]) :: x == a.fileName;
    }
    assert {} + FilesOf([a.fileName]) == {a.fileName};
    assert FilesOf([]) == {};
    var rest := packages[1..];
    assert Key(rest[0]) == "second";
    assert rest[1..] == [];
    var now2 := NewlyRetired([b], {a.fileName}, false);
    assert Distribute(rest[1..], map["second" := [b]] - {"second"}, {a.fileName} + FilesOf(now2), false) == ([], []);
    var second := Distribute(rest, map["second" := [b]], {a.fileName}, false);
    assert second == ([rest[0].(pendingChanges := rest[0].pendingChanges + ChangesOf([b]))] + [], now2 + []);
    assert rest[0] == Package(Some("second"), []);
    assert rest[0].(pendingChanges := rest[0].pendingChanges + ChangesOf([b])) == Package(Some("second"), [ChangeSet(b)]);
    assert now2 + [] == [];
    var p2 := Package(Some("second"), [ChangeSet(b)]);
    assert [p2] + [] == [p2];
    assert second == ([p2], []);
    var now1 := NewlyRetired([a], {}, false);
    assert {} + FilesOf(now1) == {a.fileName};
    var all := Distribute(packages, releases, {}, false);
    assert all == ([packages[0].(pendingChanges := packages[0].pendingChanges + ChangesOf([a]))] + second.0, now1 + second.1);
    assert packages[0].(pendingChanges := packages[0].pendingChanges + ChangesOf([a])) == Package(Some("first"), [ChangeSet(a)]);
    assert now1 + second.1 == [a.fileName];
    var p1 := Package(Some("first"), [ChangeSet(a)]);
    assert [p1] + [p2] == [p1, p2];
    assert all == ([Package(Some("first"), [ChangeSet(a)]), Package(Some("second"), [ChangeSet(b)])], [a.fileName]);
    var actions := ActionsFor([a.fileName], false);
    assert |actions| == 1 && actions[0] == RemoveFile(ChangesetPath(a.fileName));
    assert actions == [RemoveFile(ChangesetPath(a.fileName))];
  }
}
