/** Turning the commits since the last stable version into a bump rule and changelog
    entries (older engine generation): which commits a package considers, how breaking
    changes, features and fixes are collected, and how the resulting rule becomes a
    prepared release for every package. */
module ConventionalCommits {
  import opened Base
  import opened Text
  import opened SemverCrate
  import opened StepErrors
  import opened Releases
  import opened SemverRules

  /** The commit types the engine distinguishes. */
  datatype CommitType = Feat | Fix | OtherType(name: String)

  /** A parsed conventional commit: its type, optional scope, description and, when it is
      breaking, the breaking-change description (the description itself when the commit
      is marked with '!' and has no separate footer). */
  datatype Commit = Commit(typ: CommitType, scope: Option<String>, description: String,
                           breakingDescription: Option<String>)

  datatype Summary = Summary(rule: Option<ConventionalRule>, features: seq<String>, fixes: seq<String>,
                             breakingChanges: seq<String>)

  /** A breaking commit with no separate breaking message is listed only among the
      breaking changes. */
  predicate OnlyBreaking(c: Commit) {
    c.breakingDescription.Some? && c.breakingDescription.value == c.description
  }

  /** One iteration of the collecting loop. A breaking change forces `Major`; a feature
      raises the rule to `Minor` unless it is `Major`; a fix sets `Patch` only when no rule
      was chosen yet. */
  function Step(acc: Summary, c: Commit): Summary {
    var acc1 :=
      if c.breakingDescription.Some?
      then acc.(rule := Some(ConventionalRule.Major), breakingChanges := acc.breakingChanges + [c.breakingDescription.value])
      else acc;
    if OnlyBreaking(c) then acc1
    else if c.typ.Feat? then
      acc1.(features := acc1.features + [c.description],
            rule := if acc1.rule == Some(ConventionalRule.Major) then acc1.rule else Some(ConventionalRule.Minor))
    else if c.typ.Fix? then
      acc1.(rule := if acc1.rule.None? then Some(ConventionalRule.Patch) else acc1.rule,
            fixes := acc1.fixes + [c.description])
    else acc1
  }

  /** `from_commits`: the loop over the commits in order. */
  function FromCommits(commits: seq<Commit>): Summary
    decreases |commits|
  {
    if |commits| == 0 then Summary(None, [], [], [])
    else Step(FromCommits(commits[..|commits| - 1]), commits[|commits| - 1])
  }

  // ---------------------------------------------------------------------------------------
  // The collected result, stated independently of the loop

  predicate HasBreaking(commits: seq<Commit>) {
    exists i | 0 <= i < |commits| :: commits[i].breakingDescription.Some?
  }

  predicate HasType(commits: seq<Commit>, t: CommitType) {
    exists i | 0 <= i < |commits| :: commits[i].typ == t
  }

  /** The rule the commits call for: the largest one any commit asks for. */
  function RuleOf(commits: seq<Commit>): Option<ConventionalRule> {
    if HasBreaking(commits) then Some(ConventionalRule.Major)
    else if HasType(commits, Feat) then Some(ConventionalRule.Minor)
    else if HasType(commits, Fix) then Some(ConventionalRule.Patch)
    else None
  }

  /** The breaking-change messages, in commit order. */
  function BreakingOf(commits: seq<Commit>): seq<String>
    decreases |commits|
  {
    if |commits| == 0 then []
    else
      var last := commits[|commits| - 1];
      BreakingOf(commits[..|commits| - 1]) + (if last.breakingDescription.Some? then [last.breakingDescription.value] else [])
  }

  /** The descriptions of the commits of type `t` that are not only breaking, in order. */
  function DescriptionsOf(commits: seq<Commit>, t: CommitType): seq<String>
    decreases |commits|
  {
    if |commits| == 0 then []
    else
      var last := commits[|commits| - 1];
      DescriptionsOf(commits[..|commits| - 1], t) + (if last.typ == t && !OnlyBreaking(last) then [last.description] else [])
  }

  lemma HasBreakingSnoc(commits: seq<Commit>)
    requires 0 < |commits|
    ensures HasBreaking(commits) <==>
              (HasBreaking(commits[..|commits| - 1]) || commits[|commits| - 1].breakingDescription.Some?)
  {
    var prefix := commits[..|commits| - 1];
    if HasBreaking(commits) && !commits[|commits| - 1].breakingDescription.Some? {
      var i :| 0 <= i < |commits| && commits[i].breakingDescription.Some?;
      assert prefix[i] == commits[i];
    }
    if HasBreaking(prefix) {
      var i :| 0 <= i < |prefix| && prefix[i].breakingDescription.Some?;
      assert commits[i] == prefix[i];
    }
  }

  lemma HasTypeSnoc(commits: seq<Commit>, t: CommitType)
    requires 0 < |commits|
    ensures HasType(commits, t) <==> HasType(commits[..|commits| - 1], t) || commits[|commits| - 1].typ == t
  {
    var prefix := commits[..|commits| - 1];
    if HasType(commits, t) && commits[|commits| - 1].typ != t {
      var i :| 0 <= i < |commits| && commits[i].typ == t;
      assert prefix[i] == commits[i];
    }
    if HasType(prefix, t) {
      var i :| 0 <= i < |prefix| && prefix[i].typ == t;
      assert commits[i] == prefix[i];
    }
  }

  /** The loop computes exactly the independent description: the largest rule asked for,
      the breaking messages, and the feature and fix descriptions of the commits that are
      not only breaking, each list in commit order. */
  lemma {:induction false} FromCommitsMeaning(commits: seq<Commit>)
    ensures FromCommits(commits)
              == Summary(RuleOf(commits), DescriptionsOf(commits, Feat), DescriptionsOf(commits, Fix), BreakingOf(commits))
    decreases |commits|
  {
    if 0 < |commits| {
      var prefix := commits[..|commits| - 1];
      FromCommitsMeaning(prefix);
      HasBreakingSnoc(commits);
      HasTypeSnoc(commits, Feat);
      HasTypeSnoc(commits, Fix);
    }
  }

  /** The rule does not depend on the order of the commits. */
  lemma RuleIgnoresOrder(a: seq<Commit>, b: seq<Commit>)
    requires multiset(a) == multiset(b)
    ensures FromCommits(a).rule == FromCommits(b).rule
  {
    FromCommitsMeaning(a);
    FromCommitsMeaning(b);
    forall c ensures c in a <==> c in b {
      assert c in a <==> c in multiset(a);
      assert c in b <==> c in multiset(b);
    }
    if HasBreaking(a) {
      var i :| 0 <= i < |a| && a[i].breakingDescription.Some?;
      assert a[i] in b;
    }
    if HasBreaking(b) {
      var i :| 0 <= i < |b| && b[i].breakingDescription.Some?;
      assert b[i] in a;
    }
    if HasType(a, Feat) {
      var i :| 0 <= i < |a| && a[i].typ == Feat;
      assert a[i] in b;
    }
    if HasType(b, Feat) {
      var i :| 0 <= i < |b| && b[i].typ == Feat;
      assert b[i] in a;
    }
    if HasType(a, Fix) {
      var i :| 0 <= i < |a| && a[i].typ == Fix;
      assert a[i] in b;
    }
    if HasType(b, Fix) {
      var i :| 0 <= i < |b| && b[i].typ == Fix;
      assert b[i] in a;
    }
  }

  /** A breaking feature with no separate message appears among the breaking changes and
      not among the features, and the rule is `Major`. */
  lemma BreakingFeatureScenario()
    ensures
      var commits := [Commit(Fix, None, "a bug", None),
                      Commit(Feat, None, "add a feature", Some("add a feature")),
                      Commit(Feat, None, "add another feature", None)];
      FromCommits(commits) == Summary(Some(ConventionalRule.Major), ["add another feature"], ["a bug"], ["add a feature"])
  {
    var commits := [Commit(Fix, None, "a bug", None),
                    Commit(Feat, None, "add a feature", Some("add a feature")),
                    Commit(Feat, None, "add another feature", None)];
    assert commits[..|commits| - 1] == commits[..2];
    assert commits[..2][..1] == commits[..1];
    assert commits[..1][..0] == [];
    var s1 := Summary(Some(ConventionalRule.Patch), [], ["a bug"], []);
    assert FromCommits(commits[..1]) == s1;
    var s2 := Summary(Some(ConventionalRule.Major), [], ["a bug"], ["add a feature"]);
    assert OnlyBreaking(commits[1]);
    assert FromCommits(commits[..2]) == Step(s1, commits[1]) == s2;
    assert !OnlyBreaking(commits[2]);
    assert FromCommits(commits) == Step(s2, commits[2]);
  }

  // ---------------------------------------------------------------------------------------
  // Selecting commits for a package

  /** Whether a commit counts for a package: all commits count when scopes are not
      considered; otherwise an unscoped commit counts, and a scoped one counts only when
      the package lists that scope. */
  predicate Selected(c: Commit, considerScopes: bool, scopes: Option<seq<String>>) {
    if !considerScopes then true
    else
      match (c.scope, scopes)
      case (None, _) => true
      case (Some(_), None) => false
      case (Some(s), Some(ss)) => s in ss
  }

  /** Whether a message, trimmed, parses as a conventional commit that is selected. */
  predicate Kept(message: String, parse: String -> Option<Commit>, considerScopes: bool, scopes: Option<seq<String>>) {
    parse(Trim(message)).Some? && Selected(parse(Trim(message)).value, considerScopes, scopes)
  }

  /** The messages that parse, trimmed, as conventional commits and are selected, in order.
      The conventional-commit parser is not part of this model; it is the `parse`
      parameter. */
  function SelectCommits(messages: seq<String>, parse: String -> Option<Commit>, considerScopes: bool,
                         scopes: Option<seq<String>>): (r: seq<Commit>)
    ensures forall i | 0 <= i < |r| :: Selected(r[i], considerScopes, scopes)
    ensures forall i | 0 <= i < |r| :: exists j | 0 <= j < |messages| :: parse(Trim(messages[j])) == Some(r[i])
    ensures |r| <= |messages|
    decreases |messages|
  {
    if |messages| == 0 then []
    else
      var rest := SelectCommits(messages[1..], parse, considerScopes, scopes);
      var first := parse(Trim(messages[0]));
      assert forall j | 0 <= j < |messages| - 1 :: messages[1..][j] == messages[j + 1];
      if first.Some? && Selected(first.value, considerScopes, scopes) then [first.value] + rest else rest
  }

  /** The selected commits are exactly the parsed messages at the kept positions, in input
      order: the i-th commit comes from the i-th kept message. */
  lemma SelectCommitsInOrder(messages: seq<String>, parse: String -> Option<Commit>, considerScopes: bool,
                             scopes: Option<seq<String>>)
    ensures var idx := PositionsFrom(messages, m => Kept(m, parse, considerScopes, scopes), 0);
            var r := SelectCommits(messages, parse, considerScopes, scopes);
            && |r| == |idx|
            && forall i | 0 <= i < |r| :: parse(Trim(messages[idx[i]])) == Some(r[i])
  {
    SelectCommitsFrom(messages, parse, considerScopes, scopes, 0);
    assert messages[0..] == messages;
  }

  /** `r[i]` is what the message at position `idx[i]` parses to. */
  ghost predicate ParsedAt(r: seq<Commit>, idx: seq<int>, messages: seq<String>, parse: String -> Option<Commit>) {
    |r| == |idx| && forall i | 0 <= i < |r| :: 0 <= idx[i] < |messages| && parse(Trim(messages[idx[i]])) == Some(r[i])
  }

  lemma ParsedAtCons(r: seq<Commit>, idx: seq<int>, messages: seq<String>, parse: String -> Option<Commit>, from: int)
    requires ParsedAt(r, idx, messages, parse)
    requires 0 <= from < |messages| && parse(Trim(messages[from])).Some?
    ensures ParsedAt([parse(Trim(messages[from])).value] + r, [from] + idx, messages, parse)
  {
    var r1 := [parse(Trim(messages[from])).value] + r;
    var idx1 := [from] + idx;
    forall i | 0 <= i < |r1| ensures 0 <= idx1[i] < |messages| && parse(Trim(messages[idx1[i]])) == Some(r1[i]) {
      if 0 < i {
        assert r1[i] == r[i - 1] && idx1[i] == idx[i - 1];
      }
    }
  }

  lemma {:induction false} SelectCommitsFrom(messages: seq<String>, parse: String -> Option<Commit>,
                                             considerScopes: bool, scopes: Option<seq<String>>, from: nat)
    requires from <= |messages|
    ensures ParsedAt(SelectCommits(messages[from..], parse, considerScopes, scopes),
                     PositionsFrom(messages, m => Kept(m, parse, considerScopes, scopes), from), messages, parse)
    decreases |messages| - from
  {
    if from < |messages| {
      var keep := m => Kept(m, parse, considerScopes, scopes);
      var idx := PositionsFrom(messages, keep, from);
      var r := SelectCommits(messages[from..], parse, considerScopes, scopes);
      var idx' := PositionsFrom(messages, keep, from + 1);
      var r' := SelectCommits(messages[from + 1..], parse, considerScopes, scopes);
      SelectCommitsFrom(messages, parse, considerScopes, scopes, from + 1);
      assert r == if Kept(messages[from], parse, considerScopes, scopes)
                  then [parse(Trim(messages[from])).value] + r' else r' by {
        assert messages[from..][0] == messages[from];
        assert messages[from..][1..] == messages[from + 1..];
      }
      if Kept(messages[from], parse, considerScopes, scopes) {
        assert idx == [from] + idx';
        ParsedAtCons(r', idx', messages, parse, from);
      } else {
        assert idx == idx';
      }
    }
  }

  /** Every message that parses to a selected commit contributes it. */
  lemma SelectCommitsComplete(messages: seq<String>, parse: String -> Option<Commit>,
                              considerScopes: bool, scopes: Option<seq<String>>, j: int)
    requires 0 <= j < |messages|
    requires parse(Trim(messages[j])).Some? && Selected(parse(Trim(messages[j])).value, considerScopes, scopes)
    ensures parse(Trim(messages[j])).value in SelectCommits(messages, parse, considerScopes, scopes)
  {
    var idx := PositionsFrom(messages, m => Kept(m, parse, considerScopes, scopes), 0);
    SelectCommitsInOrder(messages, parse, considerScopes, scopes);
    assert Kept(messages[j], parse, considerScopes, scopes);
    var k :| 0 <= k < |idx| && idx[k] == j;
    assert SelectCommits(messages, parse, considerScopes, scopes)[k] == parse(Trim(messages[j])).value;
  }

  /** `from_commit_messages`. */
  function FromCommitMessages(messages: seq<String>, parse: String -> Option<Commit>, considerScopes: bool,
                              package: PackageConfig): Summary
  {
    FromCommits(SelectCommits(messages, parse, considerScopes, package.scopes))
  }

  /** The three scope cases of the selection: scopes ignored, scopes considered but none
      configured for the package, and a package that lists "scope". */
  lemma ScopeSelectionScenarios()
    ensures Selected(Commit(Feat, Some("wrong_scope"), "x", Some("x")), false, Some(["scope"]))
    ensures !Selected(Commit(Feat, Some("scope"), "x", Some("x")), true, None)
    ensures Selected(Commit(Fix, None, "x", None), true, None)
    ensures !Selected(Commit(Feat, Some("wrong_scope"), "x", Some("x")), true, Some(["scope"]))
    ensures Selected(Commit(Feat, Some("scope"), "x", None), true, Some(["scope"]))
  {
    assert "wrong_scope" != "scope" by { assert "wrong_scope"[0] == 'w' != 's' == "scope"[0]; }
    assert "scope" in ["scope"];
  }

  // ---------------------------------------------------------------------------------------
  // Preparing releases

  /** The rule applied to a package: the conventional rule itself, or a prerelease with the
      configured label aiming at the version that rule gives. */
  function PackageRule(rule: ConventionalRule, prereleaseLabel: Option<String>): (r: Rule)
    ensures prereleaseLabel.None? ==> r == FromConventional(rule) && IsPrimary(r)
    ensures prereleaseLabel.Some? ==> r.Pre? && r.preLabel == prereleaseLabel.value && r.stableRule == rule
  {
    match prereleaseLabel
    case Some(lbl) => Rule.Pre(lbl, rule)
    case None => FromConventional(rule)
  }

  /** The parts of the run this model takes as given: the commit history per package, the
      commit parser, the version bump (`bump_version`, which reads and writes the package's
      files), the rendering of the changelog section, and the output that follows the bump
      (`None` when it succeeds): in a dry run the "Would bump" report written to the output
      stream, in a real run, when the package has a changelog, writing the section into it
      and staging the file with git. */
  datatype Environment = Environment(
    history: Option<String> -> Result<seq<String>, StepError>,
    parse: String -> Option<Commit>,
    bumpVersion: (PackageConfig, Rule, bool) -> Result<SemVer, StepError>,
    renderChangelog: (String, seq<String>, seq<String>, seq<String>) -> seq<String>,
    writeChangelog: (PackageConfig, String, seq<String>, bool) -> Option<StepError>)

  /** `prepare_release_for_package`: no release when no commit calls for a bump; otherwise
      the bumped version with its changelog section, attributed to the package, once the
      section is reported or written. */
  function PrepareReleaseForPackage(env: Environment, package: PackageConfig, considerScopes: bool,
                                    prereleaseLabel: Option<String>, dryRun: bool)
    : (r: Result<Option<Release>, StepError>)
    ensures r.Ok? && r.value.Some? ==> r.value.value.packageName == package.name
    ensures env.history(package.name).Ok? && RuleOf(SelectCommits(env.history(package.name).value, env.parse, considerScopes, package.scopes)).None?
            ==> r == Ok(None)
  {
    var messages :- env.history(package.name);
    var summary := FromCommitMessages(messages, env.parse, considerScopes, package);
    FromCommitsMeaning(SelectCommits(messages, env.parse, considerScopes, package.scopes));
    match summary.rule
    case None => Ok(None)
    case Some(conventionalRule) =>
      var rule := PackageRule(conventionalRule, prereleaseLabel);
      var version :- env.bumpVersion(package, rule, dryRun);
      var versionText := ToString(version);
      var lines := env.renderChangelog(versionText, summary.fixes, summary.features, summary.breakingChanges);
      match env.writeChangelog(package, versionText, lines, dryRun)
      case Some(e) => Err(e)
      case None => Ok(Some(Releases.Release(version, Join(lines, "\n"), package.name)))
  }

  /** When preparing a package gives no release or fails before its changelog: a history
      error is the outcome; when none of the commits selected from the history asks for a
      rule there is no release; otherwise a failed version bump by the package's rule is
      the outcome. */
  lemma PrepareReleaseMeaning(env: Environment, package: PackageConfig, considerScopes: bool,
                              prereleaseLabel: Option<String>, dryRun: bool)
    ensures env.history(package.name).Err? ==>
              PrepareReleaseForPackage(env, package, considerScopes, prereleaseLabel, dryRun)
                == Err(env.history(package.name).error)
    ensures env.history(package.name).Ok? ==>
              var commits := SelectCommits(env.history(package.name).value, env.parse, considerScopes, package.scopes);
              var r := PrepareReleaseForPackage(env, package, considerScopes, prereleaseLabel, dryRun);
              && (RuleOf(commits).None? ==> r == Ok(None))
              && (RuleOf(commits).Some? ==>
                    var bumped := env.bumpVersion(package, PackageRule(RuleOf(commits).value, prereleaseLabel), dryRun);
                    bumped.Err? ==> r == Err(bumped.error))
  {
    if env.history(package.name).Ok? {
      FromCommitsMeaning(SelectCommits(env.history(package.name).value, env.parse, considerScopes, package.scopes));
    }
  }

  /** When the commits selected from the history ask for a rule and the version bump by the
      package's rule succeeds, the release is that version with a changelog section listing
      the fixes, features and breaking changes of the selected commits, unless reporting or
      writing the section fails, which is then the outcome. */
  lemma PrepareReleaseBumped(env: Environment, package: PackageConfig, considerScopes: bool,
                             prereleaseLabel: Option<String>, dryRun: bool)
    ensures env.history(package.name).Ok? ==>
              var commits := SelectCommits(env.history(package.name).value, env.parse, considerScopes, package.scopes);
              RuleOf(commits).Some? ==>
                var bumped := env.bumpVersion(package, PackageRule(RuleOf(commits).value, prereleaseLabel), dryRun);
                bumped.Ok? ==>
                  var lines := env.renderChangelog(ToString(bumped.value), DescriptionsOf(commits, Fix),
                                                   DescriptionsOf(commits, Feat), BreakingOf(commits));
                  var written := env.writeChangelog(package, ToString(bumped.value), lines, dryRun);
                  PrepareReleaseForPackage(env, package, considerScopes, prereleaseLabel, dryRun)
                    == if written.Some? then Err(written.value)
                       else Ok(Some(Releases.Release(bumped.value, Join(lines, "\n"), package.name)))
  {
    if env.history(package.name).Ok? {
      FromCommitsMeaning(SelectCommits(env.history(package.name).value, env.parse, considerScopes, package.scopes));
    }
  }

  /** Whether any package lists scopes; if so, every package filters commits by scope. */
  predicate AnyScopes(packages: seq<PackageConfig>) {
    exists i | 0 <= i < |packages| :: packages[i].scopes.Some?
  }

  /** The loop over the packages, appending one `Prepared` entry per package that gets a
      release, and stopping at the first error; `prepare` prepares one package. */
  function PrepareAll(prepare: PackageConfig -> Result<Option<Release>, StepError>, packages: seq<PackageConfig>)
    : (r: Result<seq<StateRelease>, StepError>)
    ensures r.Ok? ==> |r.value| <= |packages|
    ensures r.Ok? ==> forall i | 0 <= i < |r.value| :: r.value[i].Prepared?
    decreases |packages|
  {
    if |packages| == 0 then Ok([])
    else
      var first :- prepare(packages[0]);
      var rest :- PrepareAll(prepare, packages[1..]);
      Ok(match first
         case Some(release) => [Prepared(release)] + rest
         case None => rest)
  }

  /** The loop succeeds only when every package was prepared without error, and it
      prepares nothing exactly when it succeeds and no package got a release. */
  lemma {:induction false} PrepareAllMeaning(prepare: PackageConfig -> Result<Option<Release>, StepError>,
                                             packages: seq<PackageConfig>)
    ensures PrepareAll(prepare, packages).Ok? ==> forall i | 0 <= i < |packages| :: prepare(packages[i]).Ok?
    ensures PrepareAll(prepare, packages) == Ok([]) <==> forall i | 0 <= i < |packages| :: prepare(packages[i]) == Ok(None)
    decreases |packages|
  {
    if 0 < |packages| {
      PrepareAllMeaning(prepare, packages[1..]);
      assert forall i | 1 <= i < |packages| :: packages[i] == packages[1..][i - 1];
    }
  }

  /** Whether preparing a package gave it a release. */
  predicate GetsRelease(outcome: Result<Option<Release>, StepError>) {
    outcome.Ok? && outcome.value.Some?
  }

  /** A successful loop records exactly the releases of the packages that get one, in
      package order: the i-th entry is the release of the i-th such package. */
  lemma PrepareAllInOrder(prepare: PackageConfig -> Result<Option<Release>, StepError>, packages: seq<PackageConfig>)
    ensures var idx := PositionsFrom(packages, p => GetsRelease(prepare(p)), 0);
            var r := PrepareAll(prepare, packages);
            r.Ok? ==> && |r.value| == |idx|
                      && forall i | 0 <= i < |idx| :: r.value[i] == Prepared(prepare(packages[idx[i]]).value.value)
  {
    assert packages[0..] == packages;
    if PrepareAll(prepare, packages).Ok? {
      PrepareAllFrom(prepare, packages, 0);
    }
  }

  lemma {:induction false} PrepareAllFrom(prepare: PackageConfig -> Result<Option<Release>, StepError>,
                                          packages: seq<PackageConfig>, from: nat)
    requires from <= |packages| && PrepareAll(prepare, packages[from..]).Ok?
    ensures var idx := PositionsFrom(packages, p => GetsRelease(prepare(p)), from);
            var r := PrepareAll(prepare, packages[from..]).value;
            && |r| == |idx|
            && forall i | 0 <= i < |idx| :: r[i] == Prepared(prepare(packages[idx[i]]).value.value)
    decreases |packages| - from
  {
    if from < |packages| {
      var keep := p => GetsRelease(prepare(p));
      var idx := PositionsFrom(packages, keep, from);
      var idx' := PositionsFrom(packages, keep, from + 1);
      var r := PrepareAll(prepare, packages[from..]).value;
      assert PrepareAll(prepare, packages[from + 1..]).Ok?
             && r == if GetsRelease(prepare(packages[from]))
                     then [Prepared(prepare(packages[from]).value.value)] + PrepareAll(prepare, packages[from + 1..]).value
                     else PrepareAll(prepare, packages[from + 1..]).value by {
        assert packages[from..][0] == packages[from];
        assert packages[from..][1..] == packages[from + 1..];
      }
      var r' := PrepareAll(prepare, packages[from + 1..]).value;
      PrepareAllFrom(prepare, packages, from + 1);
      if GetsRelease(prepare(packages[from])) {
        assert |r| == |idx| && forall i | 0 <= i < |idx| :: r[i] == Prepared(prepare(packages[idx[i]]).value.value) by {
          assert idx == [from] + idx';
          forall i | 0 <= i < |idx| ensures r[i] == Prepared(prepare(packages[idx[i]]).value.value) {
            if 0 < i {
              assert r[i] == r'[i - 1] && idx[i] == idx'[i - 1];
            }
          }
        }
      } else {
        assert idx == idx' && r == r';
      }
    }
  }

  /** The releases appended, in package order: one per package that gets one. */
  lemma {:induction false} PrepareAllReleases(prepare: PackageConfig -> Result<Option<Release>, StepError>,
                                              packages: seq<PackageConfig>, i: int)
    requires PrepareAll(prepare, packages).Ok?
    requires 0 <= i < |packages| && prepare(packages[i]).Ok? && prepare(packages[i]).value.Some?
    ensures Prepared(prepare(packages[i]).value.value) in PrepareAll(prepare, packages).value
    decreases |packages|
  {
    if 0 < i {
      assert packages[i] == packages[1..][i - 1];
      PrepareAllReleases(prepare, packages[1..], i - 1);
    }
  }

  /** The preparation of one package within a run over `packages`: scopes are considered
      when any package lists them. */
  function Preparer(env: Environment, packages: seq<PackageConfig>, prereleaseLabel: Option<String>, dryRun: bool)
    : PackageConfig -> Result<Option<Release>, StepError>
  {
    p => PrepareReleaseForPackage(env, p, AnyScopes(packages), prereleaseLabel, dryRun)
  }

  /** `update_project_from_conventional_commits`: at least one package is required; the
      prepared releases are appended to those already recorded; a real run that ends with
      no release recorded at all is a `NoRelease` error, a dry run never is. */
  function UpdateProject(env: Environment, packages: seq<PackageConfig>, releases: seq<StateRelease>,
                         prereleaseLabel: Option<String>, dryRun: bool)
    : (r: Result<seq<StateRelease>, StepError>)
    ensures |packages| == 0 ==> r == Err(NoDefinedPackages)
    ensures r.Ok? ==> |releases| <= |r.value| && r.value[..|releases|] == releases
    ensures r.Ok? ==> forall i | |releases| <= i < |r.value| :: r.value[i].Prepared?
    ensures r.Ok? && !dryRun ==> 0 < |r.value|
  {
    if |packages| == 0 then Err(NoDefinedPackages)
    else
      var prepared :- PrepareAll(Preparer(env, packages, prereleaseLabel, dryRun), packages);
      var all := releases + prepared;
      if dryRun then Ok(all)
      else if |all| == 0 then Err(NoRelease)
      else Ok(all)
  }

  /** What a run records and when it fails: a successful run appends exactly the prepared
      releases; a dry run fails only when preparing some package fails, so never for want of
      a release; a real run whose packages were all prepared fails exactly when
      nothing was recorded before and nothing was prepared, and then with `NoRelease`. */
  lemma UpdateProjectOutcome(env: Environment, packages: seq<PackageConfig>, releases: seq<StateRelease>,
                             prereleaseLabel: Option<String>, dryRun: bool)
    requires 0 < |packages|
    ensures var prepared := PrepareAll(Preparer(env, packages, prereleaseLabel, dryRun), packages);
            var r := UpdateProject(env, packages, releases, prereleaseLabel, dryRun);
            && (r.Ok? ==> prepared.Ok? && r.value == releases + prepared.value)
            && (dryRun ==> (r.Ok? <==> prepared.Ok?))
            && (prepared.Err? ==> r == Err(prepared.error))
            && (!dryRun && prepared.Ok? ==> (r.Err? <==> |releases| == 0 && prepared.value == []))
            && (!dryRun && prepared.Ok? && r.Err? ==> r.error == NoRelease)
  {
  }

  /** A package that calls for no release in a real run calls for none in a dry run. */
  lemma NoBumpInDryRun(env: Environment, package: PackageConfig, considerScopes: bool, prereleaseLabel: Option<String>)
    requires PrepareReleaseForPackage(env, package, considerScopes, prereleaseLabel, false) == Ok(None)
    ensures PrepareReleaseForPackage(env, package, considerScopes, prereleaseLabel, true) == Ok(None)
  {
  }

  /** When every package is prepared without a release, a real run with nothing recorded
      before fails with `NoRelease`, while a dry run succeeds and records nothing. */
  lemma NoReleaseWhenNothingToBump(env: Environment, packages: seq<PackageConfig>, prereleaseLabel: Option<String>)
    requires 0 < |packages|
    requires forall i | 0 <= i < |packages| ::
               PrepareReleaseForPackage(env, packages[i], AnyScopes(packages), prereleaseLabel, false) == Ok(None)
    ensures UpdateProject(env, packages, [], prereleaseLabel, false) == Err(NoRelease)
    ensures UpdateProject(env, packages, [], prereleaseLabel, true) == Ok([])
  {
    PrepareAllMeaning(Preparer(env, packages, prereleaseLabel, false), packages);
    forall i | 0 <= i < |packages|
      ensures Preparer(env, packages, prereleaseLabel, true)(packages[i]) == Ok(None)
    {
      NoBumpInDryRun(env, packages[i], AnyScopes(packages), prereleaseLabel);
    }
    PrepareAllMeaning(Preparer(env, packages, prereleaseLabel, true), packages);
  }

  /** A package that gets a release, in a run where every package is prepared without
      error, has its release recorded as prepared. */
  lemma ReleaseRecorded(env: Environment, packages: seq<PackageConfig>, releases: seq<StateRelease>,
                        prereleaseLabel: Option<String>, dryRun: bool, i: int)
    requires 0 <= i < |packages|
    requires forall j | 0 <= j < |packages| ::
               PrepareReleaseForPackage(env, packages[j], AnyScopes(packages), prereleaseLabel, dryRun).Ok?
    requires PrepareReleaseForPackage(env, packages[i], AnyScopes(packages), prereleaseLabel, dryRun).value.Some?
    ensures UpdateProject(env, packages, releases, prereleaseLabel, dryRun).Ok?
    ensures Prepared(PrepareReleaseForPackage(env, packages[i], AnyScopes(packages), prereleaseLabel, dryRun).value.value)
              in UpdateProject(env, packages, releases, prereleaseLabel, dryRun).value
  {
    var prepare := Preparer(env, packages, prereleaseLabel, dryRun);
    PrepareAllSucceeds(prepare, packages);
    PrepareAllReleases(prepare, packages, i);
  }

  lemma {:induction false} PrepareAllSucceeds(prepare: PackageConfig -> Result<Option<Release>, StepError>,
                                              packages: seq<PackageConfig>)
    requires forall i | 0 <= i < |packages| :: prepare(packages[i]).Ok?
    ensures PrepareAll(prepare, packages).Ok?
    decreases |packages|
  {
    if 0 < |packages| {
      assert forall i | 1 <= i < |packages| :: packages[i] == packages[1..][i - 1];
      PrepareAllSucceeds(prepare, packages[1..]);
    }
  }

  /** A single breaking feature on top of 1.0.0 asks for `Major` and, with no prerelease
      label, bumps the version to 2.0.0. */
  lemma BreakingFeatureBumpsToTwo()
    ensures
      var commits := [Commit(Feat, None, "add a feature", Some("add a feature"))];
      && FromCommits(commits).rule == Some(ConventionalRule.Major)
      && Bump(CurrentVersions(NewVersion(1, 0, 0), None), PackageRule(FromCommits(commits).rule.value, None))
           == Ok(CurrentVersions(NewVersion(2, 0, 0), None))
  {
    var commits := [Commit(Feat, None, "add a feature", Some("add a feature"))];
    assert commits[..0] == [];
  }
}
