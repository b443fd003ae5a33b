/** The bump rules of the older engine generation: how a rule moves the current versions
    forward (with the special meaning of major version 0 and the numbering of prereleases),
    how one package's versioned files are reduced to one current version, and which version
    is written back. */
module SemverRules {
  import opened Base
  import opened Text
  import opened SemverCrate
  import opened StepErrors
  import opened Releases

  /** The rules conventional commits can produce. */
  datatype ConventionalRule = Major | Minor | Patch

  /** The rules a bump can apply. `Pre` starts or continues a prerelease whose stable target
      is the current stable version bumped by `stableRule`; `Release` promotes the
      prerelease to stable. */
  datatype Rule = Major | Minor | Patch | Pre(preLabel: String, stableRule: ConventionalRule) | Release

  function DefaultConventionalRule(): ConventionalRule {
    ConventionalRule.Patch
  }

  /** `From<ConventionalRule> for Rule`. */
  function FromConventional(rule: ConventionalRule): (r: Rule)
    ensures !r.Pre? && !r.Release?
  {
    match rule
    case Major => Rule.Major
    case Minor => Rule.Minor
    case Patch => Rule.Patch
  }

  /** The conversion maps the three conventional rules one-to-one onto the primary rules. */
  lemma FromConventionalIsOneToOne(a: ConventionalRule, b: ConventionalRule)
    ensures FromConventional(a) == FromConventional(b) ==> a == b
    ensures FromConventional(a).Major? <==> a.Major?
    ensures FromConventional(a).Minor? <==> a.Minor?
    ensures FromConventional(a).Patch? <==> a.Patch?
  {
  }

  predicate IsPrimary(rule: Rule) {
    rule.Major? || rule.Minor? || rule.Patch?
  }

  // ---------------------------------------------------------------------------------------
  // Bumping

  /** `bump`: applies `rule` to the current versions. While the major component is 0,
      `Major` bumps the minor component and `Minor` bumps the patch component. Every primary
      rule drops the prerelease; `Release` promotes the prerelease and fails without one. */
  function Bump(version: CurrentVersions, rule: Rule): (r: Result<CurrentVersions, StepError>)
    ensures IsPrimary(rule) ==> r.Ok? && r.value.prerelease.None? && IsStable(r.value.stable)
    ensures rule.Release? ==> (r.Err? <==> version.prerelease.None?)
    ensures rule.Pre? && r.Ok? ==> r.value.stable == version.stable && r.value.prerelease.Some?
    decreases if rule.Pre? then 2 else 0
  {
    var stable := version.stable;
    var isZero := stable.major == 0;
    var prerelease := version.prerelease;
    var stableOnly := version.(prerelease := None);
    match rule
    case Major =>
      if !isZero then Ok(CurrentVersions(SemVer(stable.major + 1, 0, 0, ""), None))
      else Ok(CurrentVersions(SemVer(stable.major, stable.minor + 1, 0, ""), None))
    case Minor =>
      if !isZero then Ok(CurrentVersions(SemVer(stable.major, stable.minor + 1, 0, ""), None))
      else Ok(CurrentVersions(stable.(patch := stable.patch + 1, pre := ""), None))
    case Patch =>
      Ok(CurrentVersions(stable.(patch := stable.patch + 1, pre := ""), None))
    case Release =>
      (match prerelease
       case None =>
         Err(InvalidPreReleaseVersion("No prerelease version found, but a Release rule was requested"))
       case Some(pre) =>
         Ok(CurrentVersions(pre.(pre := ""), None)))
    case Pre(lbl, stableRule) =>
      BumpPre(stableOnly, prerelease, lbl, stableRule)
  }

  /** The u16 `+ 1` of an unchecked release build: 65535 wraps to 0. */
  function U16Increment(n: nat): nat {
    (n + 1) % U16_BOUND
  }

  /** The number the prerelease continues with: n+1 when the previous prerelease targets
      `nextStable` and reads "label.n" with n a u16; `None` otherwise. The u16 addition
      wraps at 65536, as an unchecked release build does. */
  function ContinuedNumber(prerelease: Option<SemVer>, nextStable: SemVer, lbl: String): Option<nat> {
    match prerelease
    case None => None
    case Some(pre) =>
      if !SameTriple(pre, nextStable) then None
      else
        var parts := Split(pre.pre, '.');
        if |parts| != 2 || parts[0] != lbl then None
        else
          match ParseUnsigned(parts[1], U16_BOUND)
          case None => None
          case Some(n) => Some(U16Increment(n))
  }

  /** The prerelease text a `Pre` bump aims at: "label.k" for the continued number k, or
      "label.0". */
  function PrereleaseText(prerelease: Option<SemVer>, nextStable: SemVer, lbl: String): String {
    match ContinuedNumber(prerelease, nextStable, lbl)
    case Some(k) => lbl + "." + NatToString(k)
    case None => lbl + ".0"
  }

  /** `bump_pre`: the stable target is the current stable version bumped by `stableRule`;
      the prerelease continues the previous numbering for the same target and label and
      restarts at "label.0" otherwise. The stable version itself does not move. */
  function BumpPre(stableOnly: CurrentVersions, prerelease: Option<SemVer>, lbl: String, stableRule: ConventionalRule)
    : (r: Result<CurrentVersions, StepError>)
    requires stableOnly.prerelease.None?
    ensures r.Ok? ==> r.value.stable == stableOnly.stable && r.value.prerelease.Some?
    decreases 1
  {
    var stable := stableOnly.stable;
    var next :- Bump(stableOnly, FromConventional(stableRule));
    var nextStable := next.stable;
    var text := PrereleaseText(prerelease, nextStable, lbl);
    if !PrereleaseTextValid(text) then Err(InvalidPreReleaseVersion(text))
    else Ok(CurrentVersions(stable, Some(nextStable.(pre := text))))
  }

  /** The stable target of a prerelease bump: the stable version bumped by `rule`. */
  function NextStable(stable: SemVer, rule: ConventionalRule): SemVer {
    Bump(CurrentVersions(stable, None), FromConventional(rule)).value.stable
  }

  /** A major bump past 0.x gives (major+1, 0, 0) and drops any prerelease. */
  lemma BumpMajor(cv: CurrentVersions)
    requires 1 <= cv.stable.major
    ensures Bump(cv, Rule.Major) == Ok(CurrentVersions(SemVer(cv.stable.major + 1, 0, 0, ""), None))
  {
  }

  /** Below 1.0.0, `Major` bumps minor and zeroes patch. */
  lemma BumpZeroMajor(cv: CurrentVersions)
    requires cv.stable.major == 0
    ensures Bump(cv, Rule.Major) == Ok(CurrentVersions(SemVer(0, cv.stable.minor + 1, 0, ""), None))
  {
  }

  /** Below 1.0.0, `Minor` bumps only patch. */
  lemma BumpZeroMinor(cv: CurrentVersions)
    requires cv.stable.major == 0
    ensures Bump(cv, Rule.Minor) == Ok(CurrentVersions(SemVer(0, cv.stable.minor, cv.stable.patch + 1, ""), None))
  {
  }

  /** From 1.0.0 on, `Minor` bumps minor and zeroes patch. */
  lemma BumpMinor(cv: CurrentVersions)
    requires 1 <= cv.stable.major
    ensures Bump(cv, Rule.Minor) == Ok(CurrentVersions(SemVer(cv.stable.major, cv.stable.minor + 1, 0, ""), None))
  {
  }

  /** `Patch` bumps patch for every major version. */
  lemma BumpPatch(cv: CurrentVersions)
    ensures Bump(cv, Rule.Patch)
              == Ok(CurrentVersions(SemVer(cv.stable.major, cv.stable.minor, cv.stable.patch + 1, ""), None))
  {
  }

  /** A primary rule never moves the stable version backwards: the new triple is strictly
      above the old one. */
  lemma BumpIncreases(cv: CurrentVersions, rule: Rule)
    requires IsPrimary(rule)
    ensures TripleLess(cv.stable, Bump(cv, rule).value.stable)
  {
  }

  /** `Release` needs a prerelease; it turns the prerelease, without its suffix, into the
      stable version and leaves no prerelease. */
  lemma BumpRelease(cv: CurrentVersions)
    ensures cv.prerelease.None? ==> Bump(cv, Rule.Release).Err?
                                    && Bump(cv, Rule.Release).error.InvalidPreReleaseVersion?
    ensures cv.prerelease.Some? ==>
              Bump(cv, Rule.Release) == Ok(CurrentVersions(cv.prerelease.value.(pre := ""), None))
  {
  }

  /** `Pre` keeps the stable version and aims its prerelease at the stable version bumped by
      the stable rule; that target is the same whatever prerelease existed before. */
  lemma BumpPreTarget(cv: CurrentVersions, lbl: String, rule: ConventionalRule)
    requires Bump(cv, Rule.Pre(lbl, rule)).Ok?
    ensures Bump(cv, Rule.Pre(lbl, rule)).value.stable == cv.stable
    ensures SameTriple(Bump(cv, Rule.Pre(lbl, rule)).value.prerelease.value, NextStable(cv.stable, rule))
    ensures TripleLess(cv.stable, Bump(cv, Rule.Pre(lbl, rule)).value.prerelease.value)
  {
    BumpIncreases(CurrentVersions(cv.stable, None), FromConventional(rule));
  }

  /** A `Pre` bump keeps the stable version and sets the prerelease to the target with the
      prerelease text, or fails when that text is not a valid prerelease. */
  lemma BumpPreResult(cv: CurrentVersions, lbl: String, rule: ConventionalRule)
    ensures
      var target := NextStable(cv.stable, rule);
      var text := PrereleaseText(cv.prerelease, target, lbl);
      Bump(cv, Rule.Pre(lbl, rule))
        == if PrereleaseTextValid(text)
           then Ok(CurrentVersions(cv.stable, Some(target.(pre := text))))
           else Err(InvalidPreReleaseVersion(text))
  {
    var stableOnly := CurrentVersions(cv.stable, None);
    assert Bump(cv, Rule.Pre(lbl, rule)) == BumpPre(stableOnly, cv.prerelease, lbl, rule);
    var next := Bump(stableOnly, FromConventional(rule));
    assert next.Ok? && next.value.stable == NextStable(cv.stable, rule);
  }

  lemma ValidLabelNumber(lbl: String, n: nat)
    requires ValidIdentifier(lbl) && '.' !in lbl
    ensures PrereleaseTextValid(lbl + "." + NatToString(n))
    ensures Split(lbl + "." + NatToString(n), '.') == [lbl, NatToString(n)]
  {
    var number := NatToString(n);
    assert '.' !in number by { assert AllDigits(number); }
    SplitJoin([lbl, number], '.');
    assert Join([lbl, number], ".") == lbl + "." + number by {
      assert [lbl, number][1..] == [number];
    }
    assert ValidIdentifier(number) by {
      assert forall i | 0 <= i < |number| :: IsDigit(number[i]);
    }
  }

  /** A `Pre` bump from a prerelease that continues with the label at number n: the new
      prerelease text is "label.(n+1)", wrapping at the u16 bound. The bump fails exactly
      when that text is not a valid prerelease, and then names it; otherwise it keeps the
      stable version and aims the prerelease at the target. */
  lemma BumpPreContinued(cv: CurrentVersions, lbl: String, rule: ConventionalRule, n: nat)
    requires cv.prerelease.Some? && SameTriple(cv.prerelease.value, NextStable(cv.stable, rule))
    requires |Split(cv.prerelease.value.pre, '.')| == 2 && Split(cv.prerelease.value.pre, '.')[0] == lbl
    requires ParseUnsigned(Split(cv.prerelease.value.pre, '.')[1], U16_BOUND) == Some(n)
    ensures
      var text := lbl + "." + NatToString(U16Increment(n));
      Bump(cv, Rule.Pre(lbl, rule))
        == if PrereleaseTextValid(text)
           then Ok(CurrentVersions(cv.stable, Some(NextStable(cv.stable, rule).(pre := text))))
           else Err(InvalidPreReleaseVersion(text))
  {
    ContinuedText(cv.prerelease, NextStable(cv.stable, rule), lbl, n);
    BumpPreResult(cv, lbl, rule);
  }

  lemma ContinuedText(prerelease: Option<SemVer>, target: SemVer, lbl: String, n: nat)
    requires prerelease.Some? && SameTriple(prerelease.value, target)
    requires |Split(prerelease.value.pre, '.')| == 2 && Split(prerelease.value.pre, '.')[0] == lbl
    requires ParseUnsigned(Split(prerelease.value.pre, '.')[1], U16_BOUND) == Some(n)
    ensures PrereleaseText(prerelease, target, lbl) == lbl + "." + NatToString(U16Increment(n))
  {
    assert ContinuedNumber(prerelease, target, lbl) == Some(U16Increment(n));
  }

  /** A `Pre` bump from any other state: the new prerelease text is "label.0". The bump
      fails exactly when that text is not a valid prerelease, and then names it; otherwise
      it keeps the stable version and aims the prerelease at the target. */
  lemma BumpPreRestarted(cv: CurrentVersions, lbl: String, rule: ConventionalRule)
    requires || cv.prerelease.None?
             || !SameTriple(cv.prerelease.value, NextStable(cv.stable, rule))
             || |Split(cv.prerelease.value.pre, '.')| != 2
             || Split(cv.prerelease.value.pre, '.')[0] != lbl
             || ParseUnsigned(Split(cv.prerelease.value.pre, '.')[1], U16_BOUND).None?
    ensures
      Bump(cv, Rule.Pre(lbl, rule))
        == if PrereleaseTextValid(lbl + ".0")
           then Ok(CurrentVersions(cv.stable, Some(NextStable(cv.stable, rule).(pre := lbl + ".0"))))
           else Err(InvalidPreReleaseVersion(lbl + ".0"))
  {
    assert ContinuedNumber(cv.prerelease, NextStable(cv.stable, rule), lbl).None?;
    BumpPreResult(cv, lbl, rule);
  }

  /** A `Pre` bump with a valid '.'-free label never fails, whatever the previous
      prerelease. */
  lemma PreWithValidLabelSucceeds(cv: CurrentVersions, lbl: String, rule: ConventionalRule)
    requires ValidIdentifier(lbl) && '.' !in lbl
    ensures Bump(cv, Rule.Pre(lbl, rule)).Ok?
  {
    var target := NextStable(cv.stable, rule);
    if && cv.prerelease.Some? && SameTriple(cv.prerelease.value, target)
       && |Split(cv.prerelease.value.pre, '.')| == 2 && Split(cv.prerelease.value.pre, '.')[0] == lbl
       && ParseUnsigned(Split(cv.prerelease.value.pre, '.')[1], U16_BOUND).Some? {
      var n := ParseUnsigned(Split(cv.prerelease.value.pre, '.')[1], U16_BOUND).value;
      LabelNumberTextValid(lbl + "." + NatToString(U16Increment(n)), lbl, U16Increment(n));
      BumpPreContinued(cv, lbl, rule, n);
    } else {
      assert lbl + ".0" == lbl + "." + NatToString(0) by { assert NatToString(0) == "0"; }
      LabelNumberTextValid(lbl + ".0", lbl, 0);
      BumpPreRestarted(cv, lbl, rule);
    }
  }

  lemma LabelNumberTextValid(text: String, lbl: String, n: nat)
    requires ValidIdentifier(lbl) && '.' !in lbl && text == lbl + "." + NatToString(n)
    ensures PrereleaseTextValid(text)
  {
    ValidLabelNumber(lbl, n);
  }

  /** From a state whose prerelease does not continue with `lbl` (there is none, it aims at
      another triple, or its text is not exactly the label and a u16 number), a `Pre` bump
      starts at "label.0". */
  lemma PreStartsAtZero(cv: CurrentVersions, lbl: String, rule: ConventionalRule)
    requires ValidIdentifier(lbl) && '.' !in lbl
    requires || cv.prerelease.None?
             || !SameTriple(cv.prerelease.value, NextStable(cv.stable, rule))
             || |Split(cv.prerelease.value.pre, '.')| != 2
             || Split(cv.prerelease.value.pre, '.')[0] != lbl
             || ParseUnsigned(Split(cv.prerelease.value.pre, '.')[1], U16_BOUND).None?
    ensures Bump(cv, Rule.Pre(lbl, rule))
              == Ok(CurrentVersions(cv.stable, Some(NextStable(cv.stable, rule).(pre := lbl + ".0"))))
  {
    assert lbl + ".0" == lbl + "." + NatToString(0) by { assert NatToString(0) == "0"; }
    LabelNumberTextValid(lbl + ".0", lbl, 0);
    BumpPreRestarted(cv, lbl, rule);
  }

  /** From the prerelease "label.n" of the same target, a `Pre` bump with the same label
      gives "label.(n+1)", wrapping at the u16 bound. */
  lemma PreContinues(stable: SemVer, lbl: String, n: nat, rule: ConventionalRule)
    requires ValidIdentifier(lbl) && '.' !in lbl
    requires n < U16_BOUND
    ensures
      var target := NextStable(stable, rule);
      var cv := CurrentVersions(stable, Some(target.(pre := lbl + "." + NatToString(n))));
      Bump(cv, Rule.Pre(lbl, rule))
        == Ok(CurrentVersions(stable, Some(target.(pre := lbl + "." + NatToString(U16Increment(n))))))
  {
    var target := NextStable(stable, rule);
    var cv := CurrentVersions(stable, Some(target.(pre := lbl + "." + NatToString(n))));
    ValidLabelNumber(lbl, U16Increment(n));
    ContinuesNumber(cv.prerelease.value, target, lbl, n);
    BumpPreResult(cv, lbl, rule);
  }

  /** The prerelease "label.n" of the target continues as "label.(n+1)". */
  lemma ContinuesNumber(pre: SemVer, target: SemVer, lbl: String, n: nat)
    requires ValidIdentifier(lbl) && '.' !in lbl
    requires n < U16_BOUND
    requires SameTriple(pre, target) && pre.pre == lbl + "." + NatToString(n)
    ensures ContinuedNumber(Some(pre), target, lbl) == Some(U16Increment(n))
  {
    ValidLabelNumber(lbl, n);
    ParsePrintedUnsigned(n, U16_BOUND);
    var parts := Split(pre.pre, '.');
    assert parts == [lbl, NatToString(n)];
    assert ParseUnsigned(parts[1], U16_BOUND) == Some(n);
  }

  /** "label.0" continues as "label.1". */
  lemma PreSecondStep(stable: SemVer, lbl: String, rule: ConventionalRule)
    requires ValidIdentifier(lbl) && '.' !in lbl
    ensures
      var target := NextStable(stable, rule);
      Bump(CurrentVersions(stable, Some(target.(pre := lbl + ".0"))), Rule.Pre(lbl, rule))
        == Ok(CurrentVersions(stable, Some(target.(pre := lbl + ".1"))))
  {
    var target := NextStable(stable, rule);
    LabelZeroOne(target, lbl);
    PreContinuesFrom(stable, lbl, 0, rule, target.(pre := lbl + ".0"), target.(pre := lbl + ".1"));
  }

  /** `PreContinues` for prerelease versions given by name. */
  lemma PreContinuesFrom(stable: SemVer, lbl: String, n: nat, rule: ConventionalRule, current: SemVer, next: SemVer)
    requires ValidIdentifier(lbl) && '.' !in lbl
    requires n < U16_BOUND
    requires current == NextStable(stable, rule).(pre := lbl + "." + NatToString(n))
    requires next == NextStable(stable, rule).(pre := lbl + "." + NatToString(U16Increment(n)))
    ensures Bump(CurrentVersions(stable, Some(current)), Rule.Pre(lbl, rule)) == Ok(CurrentVersions(stable, Some(next)))
  {
    PreContinues(stable, lbl, n, rule);
  }

  lemma LabelZeroOne(target: SemVer, lbl: String)
    ensures target.(pre := lbl + "." + NatToString(0)) == target.(pre := lbl + ".0")
    ensures target.(pre := lbl + "." + NatToString(U16Increment(0))) == target.(pre := lbl + ".1")
  {
    assert NatToString(0) == "0";
    assert NatToString(1) == "1";
  }

  /** After "label.1", a different label restarts at "other.0". */
  lemma PreSwitchLabel(stable: SemVer, lbl: String, other: String, rule: ConventionalRule)
    requires ValidIdentifier(lbl) && '.' !in lbl
    requires ValidIdentifier(other) && '.' !in other && other != lbl
    ensures
      var target := NextStable(stable, rule);
      Bump(CurrentVersions(stable, Some(target.(pre := lbl + ".1"))), Rule.Pre(other, rule))
        == Ok(CurrentVersions(stable, Some(target.(pre := other + ".0"))))
  {
    var target := NextStable(stable, rule);
    var second := CurrentVersions(stable, Some(target.(pre := lbl + ".1")));
    assert NatToString(1) == "1";
    ValidLabelNumber(lbl, 1);
    assert Split(second.prerelease.value.pre, '.')[0] == lbl;
    PreStartsAtZero(second, other, rule);
  }

  /** Two `Pre` bumps with the same label from a state without prerelease give "label.0"
      then "label.1"; a third with a different label restarts at "other.0". */
  lemma PrereleaseNumbering(stable: SemVer, lbl: String, other: String, rule: ConventionalRule)
    requires ValidIdentifier(lbl) && '.' !in lbl
    requires ValidIdentifier(other) && '.' !in other && other != lbl
    ensures
      var target := NextStable(stable, rule);
      var first := CurrentVersions(stable, Some(target.(pre := lbl + ".0")));
      var second := CurrentVersions(stable, Some(target.(pre := lbl + ".1")));
      && Bump(CurrentVersions(stable, None), Rule.Pre(lbl, rule)) == Ok(first)
      && Bump(first, Rule.Pre(lbl, rule)) == Ok(second)
      && Bump(second, Rule.Pre(other, rule)) == Ok(CurrentVersions(stable, Some(target.(pre := other + ".0"))))
  {
    PreStartsAtZero(CurrentVersions(stable, None), lbl, rule);
    PreSecondStep(stable, lbl, rule);
    PreSwitchLabel(stable, lbl, other, rule);
  }

  // ---------------------------------------------------------------------------------------
  // Reading one package's version

  /** One configured package: its name, the commit scopes it claims and, per versioned file,
      the version read and parsed from it (or the error reading or parsing it). */
  datatype PackageConfig = PackageConfig(name: Option<String>, scopes: Option<seq<String>>,
                                         fileVersions: seq<Result<SemVer, StepError>>)

  datatype PackageVersion = PackageVersion(version: CurrentVersions, package: PackageConfig)

  /** One step of the reduction: the first error wins, and a version that differs from the
      accumulated one is an `InconsistentVersions` error naming both. */
  function CombineVersions(accumulator: Result<SemVer, StepError>, next: Result<SemVer, StepError>)
    : Result<SemVer, StepError>
  {
    match (next, accumulator)
    case (Ok(v), Ok(a)) =>
      if v == a then Ok(a) else Err(InconsistentVersions(ToString(v), ToString(a)))
    case (_, Err(e)) => Err(e)
    case (Err(e), _) => Err(e)
  }

  /** `k` is the first file that spoils agreement with the first file. */
  ghost predicate FirstDisagreement(vs: seq<Result<SemVer, StepError>>, k: int) {
    && 0 <= k < |vs|
    && (forall j | 0 <= j < k :: vs[j].Ok? && vs[j] == vs[0])
    && (vs[k].Err? || vs[k] != vs[0])
  }

  function DisagreementError(vs: seq<Result<SemVer, StepError>>, k: int): StepError
    requires 0 <= k < |vs|
    requires vs[k].Ok? ==> vs[0].Ok?
  {
    if vs[k].Err? then vs[k].error else InconsistentVersions(ToString(vs[k].value), ToString(vs[0].value))
  }

  /** The `reduce` over the files' versions, left to right: `None` for no files, the common
      version when every file read the same version, and otherwise the error of the first
      file that failed or disagreed with the first file. */
  function ReduceVersions(vs: seq<Result<SemVer, StepError>>): (r: Option<Result<SemVer, StepError>>)
    ensures r.None? <==> |vs| == 0
    ensures r.Some? && r.value.Ok? ==> forall i | 0 <= i < |vs| :: vs[i] == r.value
    ensures r.Some? && r.value.Err? ==>
              exists k :: FirstDisagreement(vs, k) && r.value.error == DisagreementError(vs, k)
    decreases |vs|
  {
    if |vs| == 0 then None
    else if |vs| == 1 then
      SingleDisagreement(vs);
      Some(vs[0])
    else
      var prefix := vs[..|vs| - 1];
      var acc := ReduceVersions(prefix).value;
      assert forall i | 0 <= i < |prefix| :: prefix[i] == vs[i];
      var r := CombineVersions(acc, vs[|vs| - 1]);
      CombineKeepsFirstDisagreement(vs, prefix, acc);
      Some(r)
  }

  lemma SingleDisagreement(vs: seq<Result<SemVer, StepError>>)
    requires |vs| == 1
    ensures vs[0].Err? ==> FirstDisagreement(vs, 0) && vs[0].error == DisagreementError(vs, 0)
  {
  }

  /** The step of the reduction keeps its meaning: combining the prefix's outcome with the
      last file is the error of the first disagreement, or the common version. */
  lemma CombineKeepsFirstDisagreement(vs: seq<Result<SemVer, StepError>>, prefix: seq<Result<SemVer, StepError>>,
                                       acc: Result<SemVer, StepError>)
    requires 1 < |vs| && prefix == vs[..|vs| - 1]
    requires acc.Ok? ==> forall i | 0 <= i < |vs| - 1 :: vs[i] == acc
    requires acc.Err? ==> exists k :: FirstDisagreement(prefix, k) && acc.error == DisagreementError(prefix, k)
    ensures var r := CombineVersions(acc, vs[|vs| - 1]);
            && (r.Ok? ==> forall i | 0 <= i < |vs| :: vs[i] == r)
            && (r.Err? ==> exists k :: FirstDisagreement(vs, k) && r.error == DisagreementError(vs, k))
  {
    var r := CombineVersions(acc, vs[|vs| - 1]);
    if acc.Err? {
      var k :| FirstDisagreement(prefix, k) && acc.error == DisagreementError(prefix, k);
      assert forall j | 0 <= j <= k :: prefix[j] == vs[j];
      assert FirstDisagreement(vs, k);
    } else if r.Err? {
      assert vs[0] == acc;
      assert FirstDisagreement(vs, |vs| - 1);
    }
  }

  /** When every file read the same version, that version is the reduction. */
  lemma {:induction false} ReduceAgreeing(vs: seq<Result<SemVer, StepError>>, v: SemVer)
    requires 0 < |vs|
    requires forall i | 0 <= i < |vs| :: vs[i] == Ok(v)
    ensures ReduceVersions(vs) == Some(Ok(v))
    decreases |vs|
  {
    if 1 < |vs| {
      ReduceAgreeing(vs[..|vs| - 1], v);
    }
  }

  /** `get_version` (the single-package part): exactly one package is required; its files
      must agree; a stable file version is the current stable version; a prerelease file
      version becomes the prerelease, with the stable version taken from the tags or
      0.0.0; without files the tags decide, defaulting to 0.0.0. */
  function GetVersion(packages: seq<PackageConfig>, fromTags: Result<Option<CurrentVersions>, StepError>)
    : (r: Result<PackageVersion, StepError>)
    ensures |packages| == 0 ==> r == Err(NoDefinedPackages)
    ensures 1 < |packages| ==> r == Err(TooManyPackages)
    ensures r.Ok? ==> |packages| == 1 && r.value.package == packages[0]
  {
    if |packages| == 0 then Err(NoDefinedPackages)
    else if 1 < |packages| then Err(TooManyPackages)
    else
      var package := packages[0];
      match ReduceVersions(package.fileVersions)
      case Some(Err(e)) => Err(e)
      case None =>
        var tags :- fromTags;
        Ok(PackageVersion(tags.UnwrapOr(DefaultCurrentVersions()), package))
      case Some(Ok(v)) =>
        if IsStable(v) then Ok(PackageVersion(CurrentVersions(v, None), package))
        else
          var tags :- fromTags;
          var stable := match tags
            case None => NewVersion(0, 0, 0)
            case Some(cv) => cv.stable;
          Ok(PackageVersion(CurrentVersions(stable, Some(v)), package))
  }

  /** What `GetVersion` yields for a single package whose files all agree on `v`. */
  lemma GetVersionAgreeing(package: PackageConfig, v: SemVer, fromTags: Result<Option<CurrentVersions>, StepError>)
    requires 0 < |package.fileVersions|
    requires forall i | 0 <= i < |package.fileVersions| :: package.fileVersions[i] == Ok(v)
    ensures IsStable(v) ==> GetVersion([package], fromTags) == Ok(PackageVersion(CurrentVersions(v, None), package))
    ensures !IsStable(v) && fromTags.Ok? ==>
              GetVersion([package], fromTags)
                == Ok(PackageVersion(
                        CurrentVersions(
                          if fromTags.value.Some? then fromTags.value.value.stable else NewVersion(0, 0, 0),
                          Some(v)),
                        package))
    ensures !IsStable(v) && fromTags.Err? ==> GetVersion([package], fromTags) == Err(fromTags.error)
  {
    ReduceAgreeing(package.fileVersions, v);
  }

  /** A package without versioned files takes its versions from the tags, 0.0.0 with no
      prerelease when there is no tag; an error reading the tags is the outcome. */
  lemma GetVersionWithoutFiles(package: PackageConfig, fromTags: Result<Option<CurrentVersions>, StepError>)
    requires |package.fileVersions| == 0
    ensures fromTags.Err? ==> GetVersion([package], fromTags) == Err(fromTags.error)
    ensures fromTags.Ok? && fromTags.value.Some? ==>
              GetVersion([package], fromTags) == Ok(PackageVersion(fromTags.value.value, package))
    ensures fromTags == Ok(None) ==>
              GetVersion([package], fromTags) == Ok(PackageVersion(CurrentVersions(NewVersion(0, 0, 0), None), package))
  {
  }

  /** Two files of one package that read different versions make `GetVersion` fail with
      `InconsistentVersions` (when reading them did not fail first). */
  lemma GetVersionInconsistent(package: PackageConfig, fromTags: Result<Option<CurrentVersions>, StepError>, k: int)
    requires 0 < k < |package.fileVersions|
    requires forall i | 0 <= i < |package.fileVersions| :: package.fileVersions[i].Ok?
    requires package.fileVersions[k] != package.fileVersions[0]
    ensures GetVersion([package], fromTags).Err?
    ensures GetVersion([package], fromTags).error.InconsistentVersions?
  {
    var vs := package.fileVersions;
    var r := ReduceVersions(vs);
    assert r.value.Err?;
    var j :| FirstDisagreement(vs, j) && r.value.error == DisagreementError(vs, j);
  }

  // ---------------------------------------------------------------------------------------
  // Writing the version back

  /** The outcome of writing the new version to the files, in order: `None` is success. */
  function FirstWriteError(writes: seq<Option<StepError>>): (r: Option<StepError>)
    ensures r.None? <==> forall i | 0 <= i < |writes| :: writes[i].None?
    ensures r.Some? ==> exists i | 0 <= i < |writes| :: writes[i] == r && forall j | 0 <= j < i :: writes[j].None?
    decreases |writes|
  {
    if |writes| == 0 then None
    else if writes[0].Some? then writes[0]
    else
      var r := FirstWriteError(writes[1..]);
      FirstWriteErrorShift(writes, r);
      r
  }

  lemma FirstWriteErrorShift(writes: seq<Option<StepError>>, r: Option<StepError>)
    requires 0 < |writes| && writes[0].None?
    requires r.Some? ==> exists i | 0 <= i < |writes[1..]| :: writes[1..][i] == r && forall j | 0 <= j < i :: writes[1..][j].None?
    ensures r.Some? ==> exists i | 0 <= i < |writes| :: writes[i] == r && forall j | 0 <= j < i :: writes[j].None?
  {
    if r.Some? {
      var i :| 0 <= i < |writes[1..]| && writes[1..][i] == r && forall j | 0 <= j < i :: writes[1..][j].None?;
      assert writes[i + 1] == r;
      assert forall j | 0 <= j < i + 1 :: writes[j].None? by {
        forall j | 0 <= j < i + 1 ensures writes[j].None? {
          if 0 < j { assert writes[j] == writes[1..][j - 1]; }
        }
      }
    }
  }

  /** `set_version`: the version written and returned is the prerelease when there is one,
      else the stable version. A dry run writes nothing and cannot fail; a real run fails
      with the first failed write. */
  function SetVersion(pv: PackageVersion, dryRun: bool, writes: seq<Option<StepError>>): (r: Result<SemVer, StepError>)
    requires |writes| == |pv.package.fileVersions|
    ensures r.Ok? ==> r.value == (if pv.version.prerelease.Some? then pv.version.prerelease.value else pv.version.stable)
    ensures dryRun ==> r.Ok?
    ensures !dryRun ==> (r.Err? <==> exists i | 0 <= i < |writes| :: writes[i].Some?)
    ensures r.Err? ==> FirstWriteError(writes) == Some(r.error)
  {
    var version := IntoLatest(pv.version);
    if dryRun then Ok(version)
    else
      match FirstWriteError(writes)
      case Some(e) => Err(e)
      case None => Ok(version)
  }

  /** `bump_version`: read the package's version, apply the rule, write the result back. */
  function BumpVersion(rule: Rule, dryRun: bool, packages: seq<PackageConfig>,
                       fromTags: Result<Option<CurrentVersions>, StepError>, writes: seq<Option<StepError>>)
    : (r: Result<SemVer, StepError>)
    requires |packages| == 1 ==> |writes| == |packages[0].fileVersions|
    ensures |packages| != 1 ==> r.Err?
  {
    var pv :- GetVersion(packages, fromTags);
    var bumped :- Bump(pv.version, rule);
    SetVersion(pv.(version := bumped), dryRun, writes)
  }

  /** `bump_version` on the one package: the first failing step decides the error, reading
      the version, then applying the rule, then (in a real run) writing it back; otherwise the
      result is the bumped prerelease when there is one, else the bumped stable version. */
  lemma BumpVersionSingle(rule: Rule, dryRun: bool, package: PackageConfig,
                          fromTags: Result<Option<CurrentVersions>, StepError>, writes: seq<Option<StepError>>)
    requires |writes| == |package.fileVersions|
    ensures var read := GetVersion([package], fromTags);
            var r := BumpVersion(rule, dryRun, [package], fromTags, writes);
            && (read.Err? ==> r == Err(read.error))
            && (read.Ok? && Bump(read.value.version, rule).Err? ==> r == Err(Bump(read.value.version, rule).error))
            && (read.Ok? && Bump(read.value.version, rule).Ok? ==>
                  var bumped := Bump(read.value.version, rule).value;
                  && (r.Ok? <==> dryRun || forall i | 0 <= i < |writes| :: writes[i].None?)
                  && (r.Ok? ==> r.value == if bumped.prerelease.Some? then bumped.prerelease.value else bumped.stable)
                  && (r.Err? ==> !dryRun && FirstWriteError(writes) == Some(r.error)))
  {
    var read := GetVersion([package], fromTags);
    if read.Ok? && Bump(read.value.version, rule).Ok? {
      var pv := read.value.(version := Bump(read.value.version, rule).value);
      assert BumpVersion(rule, dryRun, [package], fromTags, writes) == SetVersion(pv, dryRun, writes);
      if !dryRun && FirstWriteError(writes).Some? {
        assert SetVersion(pv, dryRun, writes) == Err(FirstWriteError(writes).value);
      }
    }
  }

  /** One package whose files read 1.2.3, bumped by `Minor` in a dry run, gives 1.3.0. */
  lemma BumpVersionScenario(package: PackageConfig, fromTags: Result<Option<CurrentVersions>, StepError>,
                            writes: seq<Option<StepError>>)
    requires |writes| == |package.fileVersions| == 1
    requires package.fileVersions[0] == Ok(NewVersion(1, 2, 3))
    ensures BumpVersion(Rule.Minor, true, [package], fromTags, writes) == Ok(NewVersion(1, 3, 0))
  {
    GetVersionAgreeing(package, NewVersion(1, 2, 3), fromTags);
  }

  /** A dry run and a real run whose writes all succeed decide the same version. */
  lemma DryRunDecidesLikeRealRun(rule: Rule, packages: seq<PackageConfig>,
                                 fromTags: Result<Option<CurrentVersions>, StepError>, writes: seq<Option<StepError>>)
    requires |packages| == 1 ==> |writes| == |packages[0].fileVersions|
    requires forall i | 0 <= i < |writes| :: writes[i].None?
    ensures BumpVersion(rule, true, packages, fromTags, writes) == BumpVersion(rule, false, packages, fromTags, writes)
  {
  }
}
