/** Release tags (older engine generation): the name a release is tagged with, and the scan
    of the repository's tag references that finds the current stable version and the
    prerelease that has not yet been superseded by it. */
module GitTags {
  import opened Base
  import opened Text
  import opened SemverCrate
  import opened Releases

  /** The tag prefix of a package: "v", or "<name>/v" for a named package. */
  function TagPrefix(packageName: Option<String>): (r: String)
    ensures packageName.None? ==> r == "v"
    ensures packageName.Some? ==> r == packageName.value + "/v"
  {
    match packageName
    case None => "v"
    case Some(name) => name + "/v"
  }

  /** `tag_name`: the package's tag prefix followed by the version's text. */
  function TagName(version: SemVer, packageName: Option<String>): (r: String)
    ensures StartsWith(r, TagPrefix(packageName))
    ensures StripPrefix(r, TagPrefix(packageName)) == Some(ToString(version))
  {
    TagPrefix(packageName) + ToString(version)
  }

  /** The name of the tag reference for a release. */
  function TagRef(version: SemVer, packageName: Option<String>): String {
    "refs/tags/" + TagName(version, packageName)
  }

  // ---------------------------------------------------------------------------------------
  // Reading a version back from a tag

  /** The version a tag reference names for the pattern, as the scan computes it: the
      reference name with every "refs/tags/" removed must start with the pattern, and what
      is left after removing EVERY occurrence of the pattern is parsed. The semantic-version
      parser is not part of this model; it is the `parse` parameter. */
  function TagVersionAsWritten(refName: String, pattern: String, parse: String -> Option<SemVer>): Option<SemVer> {
    var tag := ReplaceAll(refName, "refs/tags/", "");
    if !StartsWith(tag, pattern) then None
    else parse(ReplaceAll(tag, pattern, ""))
  }

  /** Removing a non-empty pattern that occurs makes the text strictly shorter. */
  lemma {:induction false} ReplaceWithNothingShortens(s: String, from: String, i: nat)
    requires 0 < |from| && i + |from| <= |s| && s[i..i + |from|] == from
    ensures |ReplaceAll(s, from, "")| < |s|
    decreases |s|
  {
    if StartsWith(s, from) {
      assert |ReplaceAll(s, from, "")| == |ReplaceAll(s[|from|..], from, "")|;
      ReplaceAllShorter(s[|from|..], from);
    } else {
      assert 0 < i;
      assert s[1..][i - 1..i - 1 + |from|] == from;
      ReplaceWithNothingShortens(s[1..], from, i - 1);
    }
  }

  lemma {:induction false} ReplaceAllShorter(s: String, from: String)
    requires 0 < |from|
    ensures |ReplaceAll(s, from, "")| <= |s|
    decreases |s|
  {
    if 0 < |s| {
      if StartsWith(s, from) {
        ReplaceAllShorter(s[|from|..], from);
      } else {
        ReplaceAllShorter(s[1..], from);
      }
    }
  }

  /** When the version text of a tag itself contains the pattern (the default pattern "v"
      and a prerelease such as "dev.0"), the scan parses a text other than the version
      text: every occurrence of the pattern is removed, not just the leading one. */
  lemma AsWrittenMangles(version: SemVer, i: nat)
    requires i + 1 <= |ToString(version)| && ToString(version)[i..i + 1] == "v"
    ensures ReplaceAll(TagName(version, None), "v", "") != ToString(version)
  {
    var text := ToString(version);
    assert TagName(version, None) == "v" + text;
    assert StartsWith("v" + text, "v");
    assert ("v" + text)[1..] == text;
    ReplaceWithNothingShortens(text, "v", i);
  }

  lemma DevPieceMangled()
    ensures ReplaceAll("0-dev", "v", "") == "0-de"
  {
    assert ReplaceAll("v", "v", "") == "" by { ReplaceAllWhole("v", ""); }
    assert ReplaceAll("ev", "v", "") == "e" by {
      KeepNonV('e', "v", "");
      assert ['e'] + "v" == "ev" && ['e'] + "" == "e";
    }
    assert ReplaceAll("dev", "v", "") == "de" by {
      KeepNonV('d', "ev", "e");
      assert ['d'] + "ev" == "dev" && ['d'] + "e" == "de";
    }
    assert ReplaceAll("-dev", "v", "") == "-de" by {
      KeepNonV('-', "dev", "de");
      assert ['-'] + "dev" == "-dev" && ['-'] + "de" == "-de";
    }
    KeepNonV('0', "-dev", "-de");
    assert ['0'] + "-dev" == "0-dev" && ['0'] + "-de" == "0-de";
  }

  /** A character other than 'v' in front of a text is kept when "v" is removed. */
  lemma KeepNonV(c: char, rest: String, r: String)
    requires c != 'v' && ReplaceAll(rest, "v", "") == r
    ensures ReplaceAll([c] + rest, "v", "") == [c] + r
  {
    var q := [c] + rest;
    assert q[0] == c && q[1..] == rest;
    ReplaceAllCopyFirst(q, "v", "");
  }

  lemma DevTagPieces()
    ensures Join(["v1", "1", "0-dev", "0"], ".") == "v1.1.0-dev.0"
    ensures Join(["1", "1", "0-de", "0"], ".") == "1.1.0-de.0"
  {
    assert ["v1", "1", "0-dev", "0"][1..][1..][1..] == ["0"];
    assert ["1", "1", "0-de", "0"][1..][1..][1..] == ["0"];
  }

  /** The concrete case: the tag "v1.1.0-dev.0" is read as "1.1.0-de.0". */
  lemma AsWrittenDevTag()
    ensures ReplaceAll("v1.1.0-dev.0", "v", "") == "1.1.0-de.0"
  {
    var parts := ["v1", "1", "0-dev", "0"];
    DevTagPieces();
    ReplaceAllJoin(parts, '.', "v", "");
    assert ReplaceAll("v1", "v", "") == "1" by {
      assert StartsWith("v1", "v");
      assert "v1"[1..] == "1";
    }
    DevPieceMangled();
    assert ReplaceAll("1", "v", "") == "1" by { assert "1"[1..] == ""; }
    assert ReplaceAll("0", "v", "") == "0" by { assert "0"[1..] == ""; }
    var replaced := ReplaceEach(parts, "v", "");
    assert |replaced| == 4;
    assert replaced[0] == "1" && replaced[1] == "1" && replaced[2] == "0-de" && replaced[3] == "0";
    assert replaced == ["1", "1", "0-de", "0"];
  }

  /** For a tag in which "refs/tags/" cannot occur, the scan reads the tag's reference as
      the tag itself. */
  lemma AsWrittenAfterRefs(tag: String, pattern: String, parse: String -> Option<SemVer>)
    requires forall i | 0 <= i && i + |"refs/tags/"| <= |tag| :: tag[i] != 'r'
    ensures TagVersionAsWritten("refs/tags/" + tag, pattern, parse)
              == if StartsWith(tag, pattern) then parse(ReplaceAll(tag, pattern, "")) else None
  {
    var refs := "refs/tags/";
    var refName := refs + tag;
    assert refs[0] == 'r' && |refs| == 10;
    assert StartsWith(refName, refs) by { assert refName[..|refs|] == refs; }
    ReplaceAllSkipMatch(refName, refs, "");
    assert refName[|refs|..] == tag;
    ReplaceAllNoStart(tag, refs, "");
    assert ReplaceAll(refName, refs, "") == tag by {
      assert [] + ReplaceAll(tag, refs, "") == tag;
    }
  }

  /** The scan hands the parser "1.1.0-de.0" for the reference of the tag "v1.1.0-dev.0". */
  lemma AsWrittenReadsDevTag(parse: String -> Option<SemVer>)
    ensures TagVersionAsWritten("refs/tags/" + "v1.1.0-dev.0", "v", parse) == parse("1.1.0-de.0")
  {
    var tag := "v1.1.0-dev.0";
    assert |tag| == 12 && tag[0] == 'v' && tag[1] == '1' && tag[2] == '.';
    AsWrittenAfterRefs(tag, "v", parse);
    assert StartsWith(tag, "v");
    AsWrittenDevTag();
  }

  /** The version a tag reference names for the pattern, stripping the leading
      "refs/tags/" and the leading pattern only. */
  function TagVersion(refName: String, pattern: String, parse: String -> Option<SemVer>): (r: Option<SemVer>)
    ensures r.Some? ==> exists text :: r == parse(text)
                                       && (refName == "refs/tags/" + pattern + text || refName == pattern + text)
  {
    var tag := StripPrefix(refName, "refs/tags/").UnwrapOr(refName);
    match StripPrefix(tag, pattern)
    case None => None
    case Some(text) => parse(text)
  }

  /** The tag created for a release is read back as that release's version text: the
      scan hands exactly `ToString(version)` to the parser. */
  lemma TagRoundTrip(version: SemVer, packageName: Option<String>, parse: String -> Option<SemVer>)
    ensures TagVersion(TagRef(version, packageName), TagPrefix(packageName), parse) == parse(ToString(version))
  {
    var tag := TagName(version, packageName);
    assert StripPrefix(TagRef(version, packageName), "refs/tags/") == Some(tag) by {
      assert StartsWith(TagRef(version, packageName), "refs/tags/");
    }
  }

  /** Another package's tags are not read for a package: a named package's tag never
      starts with the default pattern "v" unless the name does. */
  lemma OtherPackageTagIgnored(version: SemVer, name: String, parse: String -> Option<SemVer>)
    requires 0 < |name| && name[0] != 'v'
    ensures TagVersion(TagRef(version, Some(name)), TagPrefix(None), parse) == None
  {
    var tag := TagName(version, Some(name));
    assert StripPrefix(TagRef(version, Some(name)), "refs/tags/") == Some(tag) by {
      assert StartsWith(TagRef(version, Some(name)), "refs/tags/");
    }
    assert tag[0] == name[0];
  }

  // ---------------------------------------------------------------------------------------
  // Scanning the tags

  predicate StableAt(vs: seq<Option<SemVer>>, i: int)
    requires 0 <= i < |vs|
  {
    vs[i].Some? && IsStable(vs[i].value)
  }

  predicate PreAt(vs: seq<Option<SemVer>>, i: int)
    requires 0 <= i < |vs|
  {
    vs[i].Some? && !IsStable(vs[i].value)
  }

  /** `k` is the last stable version among the first `n` of `vs`. */
  predicate LastStableBefore(vs: seq<Option<SemVer>>, n: int, k: int) {
    0 <= k < n <= |vs| && StableAt(vs, k) && forall j | k < j < n :: !StableAt(vs, j)
  }

  predicate LastStable(vs: seq<Option<SemVer>>, k: int) {
    LastStableBefore(vs, |vs|, k)
  }

  /** `p` is the first prerelease of `vs` at or after `from`, before `to`. */
  predicate FirstPreBetween(vs: seq<Option<SemVer>>, from: int, to: int, p: int) {
    0 <= from <= p < to <= |vs| && PreAt(vs, p) && forall j | from <= j < p :: !PreAt(vs, j)
  }

  predicate NoPreBetween(vs: seq<Option<SemVer>>, from: int, to: int)
    requires 0 <= from && to <= |vs|
  {
    forall j | from <= j < to :: !PreAt(vs, j)
  }

  /** A stable version at `i` is the last stable one so far, with no prerelease after it. */
  lemma ScanStable(vs: seq<Option<SemVer>>, i: int)
    requires 0 <= i < |vs| && StableAt(vs, i)
    ensures LastStableBefore(vs, i + 1, i) && NoPreBetween(vs, i + 1, i + 1)
  {
  }

  /** A position without a stable version keeps the last stable one and extends the
      search for the first prerelease after it. */
  lemma ScanOther(vs: seq<Option<SemVer>>, i: int, k: int, p: int)
    requires 0 <= i < |vs| && !StableAt(vs, i) && -1 <= k < i
    ensures (forall j | 0 <= j < i :: !StableAt(vs, j)) ==> forall j | 0 <= j < i + 1 :: !StableAt(vs, j)
    ensures LastStableBefore(vs, i, k) ==> LastStableBefore(vs, i + 1, k)
    ensures NoPreBetween(vs, k + 1, i) && PreAt(vs, i) ==> FirstPreBetween(vs, k + 1, i + 1, i)
    ensures NoPreBetween(vs, k + 1, i) && !PreAt(vs, i) ==> NoPreBetween(vs, k + 1, i + 1)
    ensures FirstPreBetween(vs, k + 1, i, p) ==> FirstPreBetween(vs, k + 1, i + 1, p)
  {
  }

  /** What the scan finds in the versions `vs` read from the tags, in enumeration order:
      nothing exactly when no tag names a stable version; otherwise the last stable
      version, with the first prerelease after it, or no prerelease when none follows. */
  ghost predicate ScanOutcome(vs: seq<Option<SemVer>>, r: Option<CurrentVersions>) {
    && (r.None? <==> forall i | 0 <= i < |vs| :: !StableAt(vs, i))
    && (r.Some? ==> exists k :: LastStable(vs, k) && r.value.stable == vs[k].value
                                && (r.value.prerelease.None? ==> NoPreBetween(vs, k + 1, |vs|))
                                && (r.value.prerelease.Some? ==>
                                      exists p :: FirstPreBetween(vs, k + 1, |vs|, p)
                                                  && r.value.prerelease.value == vs[p].value))
  }

  /** The loop of `get_current_versions_from_tag`: walks the tag references in the order
      they are enumerated, reading each with `read`. A stable version replaces the stable
      version found so far and forgets the prerelease; the first prerelease after the last
      stable version is kept. There is no result when no tag names a stable version. */
  method ScanTags(refNames: seq<String>, read: String -> Option<SemVer>) returns (r: Option<CurrentVersions>)
    ensures ScanOutcome(seq(|refNames|, i requires 0 <= i < |refNames| => read(refNames[i])), r)
  {
    var vs := seq(|refNames|, i requires 0 <= i < |refNames| => read(refNames[i]));
    var stable: Option<SemVer> := None;
    var prerelease: Option<SemVer> := None;
    ghost var k := -1;
    ghost var p := -1;
    var i := 0;
    while i < |refNames|
      invariant 0 <= i <= |refNames|
      invariant -1 <= k < i
      invariant stable.None? <==> k == -1
      invariant stable.None? ==> forall j | 0 <= j < i :: !StableAt(vs, j)
      invariant stable.Some? ==> LastStableBefore(vs, i, k) && stable.value == vs[k].value
      invariant prerelease.None? ==> NoPreBetween(vs, k + 1, i)
      invariant prerelease.Some? ==> FirstPreBetween(vs, k + 1, i, p) && prerelease.value == vs[p].value
    {
      match vs[i] {
        case Some(version) =>
          if IsStable(version) {
            ScanStable(vs, i);
            stable := Some(version);
            prerelease := None;
            k := i;
          } else {
            ScanOther(vs, i, k, p);
            if prerelease.None? {
              prerelease := Some(version);
              p := i;
            }
          }
        case None =>
          ScanOther(vs, i, k, p);
      }
      i := i + 1;
    }
    r := match stable
      case None => None
      case Some(s) => Some(CurrentVersions(s, prerelease));
  }

  /** `get_current_versions_from_tag` with the corrected reading of each tag, `TagVersion`. */
  method CurrentVersionsFromTags(refNames: seq<String>, prefix: Option<String>, parse: String -> Option<SemVer>)
    returns (r: Option<CurrentVersions>)
    ensures ScanOutcome(seq(|refNames|, i requires 0 <= i < |refNames| => TagVersion(refNames[i], TagPrefix(prefix), parse)), r)
  {
    var read := refName => TagVersion(refName, TagPrefix(prefix), parse);
    r := ScanTags(refNames, read);
    assert seq(|refNames|, i requires 0 <= i < |refNames| => read(refNames[i]))
        == seq(|refNames|, i requires 0 <= i < |refNames| => TagVersion(refNames[i], TagPrefix(prefix), parse));
  }

  /** `get_current_versions_from_tag` as written, reading each tag with
      `TagVersionAsWritten`: every "refs/tags/" and every occurrence of the pattern is
      removed before parsing. */
  method CurrentVersionsFromTagsAsWritten(refNames: seq<String>, prefix: Option<String>, parse: String -> Option<SemVer>)
    returns (r: Option<CurrentVersions>)
    ensures ScanOutcome(seq(|refNames|, i requires 0 <= i < |refNames| =>
                               TagVersionAsWritten(refNames[i], TagPrefix(prefix), parse)), r)
  {
    var read := refName => TagVersionAsWritten(refName, TagPrefix(prefix), parse);
    r := ScanTags(refNames, read);
    assert seq(|refNames|, i requires 0 <= i < |refNames| => read(refNames[i]))
        == seq(|refNames|, i requires 0 <= i < |refNames| => TagVersionAsWritten(refNames[i], TagPrefix(prefix), parse));
  }
}
