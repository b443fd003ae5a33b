/** The version value type of the newer engine generation: a stable `major.minor.patch`
    triple, or such a triple carrying a `label.number` prerelease. It has its own total
    order, in which a release outranks its own prereleases, and a text form that parses
    back to the same value. */
module VersionValue {
  import opened Base
  import opened Text

  datatype StableVersion = StableVersion(major: nat, minor: nat, patch: nat)

  datatype Prerelease = Prerelease(name: String, version: nat)  // `name` is the label: "rc" in "rc.1"

  datatype PreVersion = PreVersion(stableComponent: StableVersion, preComponent: Prerelease)

  datatype Version = Stable(stable: StableVersion) | Pre(pre: PreVersion)

  /** Why a version string was refused. */
  datatype Error =
    | InvalidNumber(text: String)   // a component that is not a u64
    | WrongPartCount                // the stable part is not exactly three numbers
    | InvalidPrerelease             // a prerelease without a '.'

  // ---------------------------------------------------------------------------------------
  // Construction and projections

  function StableComponent(v: Version): StableVersion {
    match v
    case Stable(s) => s
    case Pre(p) => p.stableComponent
  }

  predicate IsPrerelease(v: Version) {
    v.Pre?
  }

  function New(major: nat, minor: nat, patch: nat, pre: Option<Prerelease>): Version {
    var stable := StableVersion(major, minor, patch);
    match pre
    case Some(p) => Pre(PreVersion(stable, p))
    case None => Stable(stable)
  }

  function DefaultVersion(): Version {
    New(0, 0, 0, None)
  }

  /** `new` builds a stable version exactly when no prerelease is given, its stable
      component is the given triple, and the default is the stable 0.0.0. */
  lemma NewProperties(major: nat, minor: nat, patch: nat, pre: Option<Prerelease>)
    ensures IsPrerelease(New(major, minor, patch, pre)) <==> pre.Some?
    ensures StableComponent(New(major, minor, patch, pre)) == StableVersion(major, minor, patch)
    ensures pre.Some? ==> New(major, minor, patch, pre).pre.preComponent == pre.value
    ensures DefaultVersion() == Stable(StableVersion(0, 0, 0))
  {
  }

  // ---------------------------------------------------------------------------------------
  // Ordering

  function CmpNat(a: nat, b: nat): Ordering {
    if a < b then Less else if a == b then Equal else Greater
  }

  /** `Ord for StableVersion`: major, then minor, then patch. */
  function CmpStable(a: StableVersion, b: StableVersion): Ordering {
    CmpNat(a.major, b.major).Then(CmpNat(a.minor, b.minor)).Then(CmpNat(a.patch, b.patch))
  }

  predicate StableLessEq(a: StableVersion, b: StableVersion) {
    CmpStable(a, b) != Greater
  }

  /** Rust's `Ord for String`: lexicographic by character (UTF-8 byte order and code point
      order agree). */
  function CmpString(a: String, b: String): Ordering
    decreases |a|
  {
    if |a| == 0 && |b| == 0 then Equal
    else if |a| == 0 then Less
    else if |b| == 0 then Greater
    else if a[0] < b[0] then Less
    else if b[0] < a[0] then Greater
    else CmpString(a[1..], b[1..])
  }

  /** `Ord for Prerelease`: label as text, then number. */
  function CmpPrerelease(a: Prerelease, b: Prerelease): Ordering {
    CmpString(a.name, b.name).Then(CmpNat(a.version, b.version))
  }

  /** `Ord for Version`: the stable components decide unless they are equal; then a stable
      version outranks a prerelease and two prereleases compare by their prerelease part. */
  function Cmp(a: Version, b: Version): Ordering {
    match CmpStable(StableComponent(a), StableComponent(b))
    case Equal =>
      (match (a, b)
       case (Stable(_), Stable(_)) => Equal
       case (Stable(_), Pre(_)) => Greater
       case (Pre(_), Stable(_)) => Less
       case (Pre(p), Pre(q)) => CmpPrerelease(p.preComponent, q.preComponent))
    case ordering => ordering
  }

  /** The stable order is the lexicographic order on (major, minor, patch). */
  lemma StableOrderIsLexicographic(a: StableVersion, b: StableVersion)
    ensures CmpStable(a, b) == Less <==>
              || a.major < b.major
              || (a.major == b.major && a.minor < b.minor)
              || (a.major == b.major && a.minor == b.minor && a.patch < b.patch)
    ensures CmpStable(a, b) == Equal <==> a == b
    ensures CmpStable(b, a) == CmpStable(a, b).Reverse()
  {
  }

  lemma StableOrderTransitive(a: StableVersion, b: StableVersion, c: StableVersion)
    requires StableLessEq(a, b) && StableLessEq(b, c)
    ensures StableLessEq(a, c)
    ensures CmpStable(a, b) == Less || CmpStable(b, c) == Less ==> CmpStable(a, c) == Less
  {
  }

  lemma {:induction false} CmpStringEqual(a: String, b: String)
    ensures CmpString(a, b) == Equal <==> a == b
    decreases |a|
  {
    if 0 < |a| && 0 < |b| && a[0] == b[0] {
      CmpStringEqual(a[1..], b[1..]);
      assert a == [a[0]] + a[1..];
      assert b == [b[0]] + b[1..];
    }
  }

  lemma {:induction false} CmpStringReverse(a: String, b: String)
    ensures CmpString(b, a) == CmpString(a, b).Reverse()
    decreases |a|
  {
    if 0 < |a| && 0 < |b| && a[0] == b[0] {
      CmpStringReverse(a[1..], b[1..]);
    }
  }

  lemma {:induction false} CmpStringTransitive(a: String, b: String, c: String)
    requires CmpString(a, b) != Greater && CmpString(b, c) != Greater
    ensures CmpString(a, c) != Greater
    ensures CmpString(a, b) == Less || CmpString(b, c) == Less ==> CmpString(a, c) == Less
    decreases |a|
  {
    if 0 < |a| && 0 < |b| && 0 < |c| && a[0] == b[0] == c[0] {
      CmpStringTransitive(a[1..], b[1..], c[1..]);
    }
  }

  lemma PrereleaseOrderIsTotal(p: Prerelease, q: Prerelease, r: Prerelease)
    ensures CmpPrerelease(p, q) == Equal <==> p == q
    ensures CmpPrerelease(q, p) == CmpPrerelease(p, q).Reverse()
    ensures CmpPrerelease(p, q) != Greater && CmpPrerelease(q, r) != Greater ==> CmpPrerelease(p, r) != Greater
  {
    CmpStringEqual(p.name, q.name);
    CmpStringReverse(p.name, q.name);
    if CmpPrerelease(p, q) != Greater && CmpPrerelease(q, r) != Greater {
      CmpStringEqual(q.name, r.name);
      CmpStringEqual(p.name, r.name);
      CmpStringTransitive(p.name, q.name, r.name);
    }
  }

  /** `Cmp` is a total order: equality, antisymmetry and transitivity. */
  lemma VersionOrderIsTotal(a: Version, b: Version, c: Version)
    ensures Cmp(a, b) == Equal <==> a == b
    ensures Cmp(b, a) == Cmp(a, b).Reverse()
    ensures Cmp(a, b) != Greater && Cmp(b, c) != Greater ==> Cmp(a, c) != Greater
  {
    VersionCmpSymmetric(a, b);
    if Cmp(a, b) != Greater && Cmp(b, c) != Greater {
      VersionCmpTransitive(a, b, c);
    }
  }

  lemma VersionCmpSymmetric(a: Version, b: Version)
    ensures Cmp(a, b) == Equal <==> a == b
    ensures Cmp(b, a) == Cmp(a, b).Reverse()
  {
    StableOrderIsLexicographic(StableComponent(a), StableComponent(b));
    if a.Pre? && b.Pre? {
      PrereleaseOrderIsTotal(a.pre.preComponent, b.pre.preComponent, a.pre.preComponent);
    }
  }

  lemma VersionCmpTransitive(a: Version, b: Version, c: Version)
    requires Cmp(a, b) != Greater && Cmp(b, c) != Greater
    ensures Cmp(a, c) != Greater
  {
    StableOrderTransitive(StableComponent(a), StableComponent(b), StableComponent(c));
    if a.Pre? && b.Pre? && c.Pre? {
      PrereleaseOrderIsTotal(a.pre.preComponent, b.pre.preComponent, c.pre.preComponent);
    }
  }

  /** Between versions with the same stable triple: a stable one is above every prerelease,
      two stable ones are equal, two prereleases compare by (label, number). */
  lemma SameTripleOrder(a: Version, b: Version)
    requires StableComponent(a) == StableComponent(b)
    ensures a.Stable? && b.Pre? ==> Cmp(a, b) == Greater
    ensures a.Stable? && b.Stable? ==> Cmp(a, b) == Equal
    ensures a.Pre? && b.Pre? ==>
              Cmp(a, b) == CmpString(a.pre.preComponent.name, b.pre.preComponent.name)
                             .Then(CmpNat(a.pre.preComponent.version, b.pre.preComponent.version))
  {
  }

  /** A differing stable triple decides the order whatever the kinds of the two versions. */
  lemma StableComponentDecides(a: Version, b: Version)
    requires StableComponent(a) != StableComponent(b)
    ensures Cmp(a, b) == CmpStable(StableComponent(a), StableComponent(b))
    ensures Cmp(a, b) != Equal
  {
    StableOrderIsLexicographic(StableComponent(a), StableComponent(b));
  }

  /** 1.3.0-rc.0 is above 1.2.3. */
  lemma PrereleaseOfNextMinorIsAboveStable()
    ensures Cmp(New(1, 3, 0, Some(Prerelease("rc", 0))), New(1, 2, 3, None)) == Greater
  {
  }

  // ---------------------------------------------------------------------------------------
  // Increments

  /** The least version whose major component is larger. */
  function IncrementMajor(v: StableVersion): (r: StableVersion)
    ensures CmpStable(v, r) == Less && v.major < r.major
    ensures forall w: StableVersion | v.major < w.major :: StableLessEq(r, w)
  {
    StableVersion(v.major + 1, 0, 0)
  }

  /** The least version with the same major component and a larger minor component. */
  function IncrementMinor(v: StableVersion): (r: StableVersion)
    ensures CmpStable(v, r) == Less && r.major == v.major && v.minor < r.minor
    ensures forall w: StableVersion | w.major == v.major && v.minor < w.minor :: StableLessEq(r, w)
  {
    StableVersion(v.major, v.minor + 1, 0)
  }

  /** The immediate successor: the least version above `v`, differing only in patch. */
  function IncrementPatch(v: StableVersion): (r: StableVersion)
    ensures CmpStable(v, r) == Less && r.major == v.major && r.minor == v.minor
    ensures forall w: StableVersion | CmpStable(v, w) == Less :: StableLessEq(r, w)
  {
    StableVersion(v.major, v.minor, v.patch + 1)
  }

  // ---------------------------------------------------------------------------------------
  // Text form

  function StableToString(s: StableVersion): String {
    NatToString(s.major) + "." + NatToString(s.minor) + "." + NatToString(s.patch)
  }

  function PrereleaseToString(p: Prerelease): String {
    p.name + "." + NatToString(p.version)
  }

  /** `Display for Version`: "major.minor.patch", then "-label.number" for a prerelease. */
  function ToString(v: Version): String {
    match v
    case Stable(s) => StableToString(s)
    case Pre(p) => StableToString(p.stableComponent) + "-" + PrereleaseToString(p.preComponent)
  }

  /** Parses every part as a u64, failing on the first part that is not one. */
  function ParseNumbers(parts: seq<String>): (r: Result<seq<nat>, Error>)
    ensures r.Ok? ==> |r.value| == |parts|
    ensures r.Ok? ==> forall i | 0 <= i < |parts| :: ParseUnsigned(parts[i], U64_BOUND) == Some(r.value[i])
    ensures r.Err? ==> exists i | 0 <= i < |parts| :: ParseUnsigned(parts[i], U64_BOUND).None?
    decreases |parts|
  {
    if |parts| == 0 then Ok([])
    else
      match ParseUnsigned(parts[0], U64_BOUND)
      case None => Err(InvalidNumber(parts[0]))
      case Some(n) =>
        var rest :- ParseNumbers(parts[1..]);
        Ok([n] + rest)
  }

  /** `FromStr for Prerelease`: a label, the first '.', then a u64. */
  function PrereleaseFromStr(s: String): (r: Result<Prerelease, Error>)
    ensures '.' !in s ==> r == Err(InvalidPrerelease)
    ensures r.Ok? ==>
              && '.' !in r.value.name
              && |r.value.name| < |s| && s[..|r.value.name|] == r.value.name && s[|r.value.name|] == '.'
              && ParseUnsigned(s[|r.value.name| + 1..], U64_BOUND) == Some(r.value.version)
  {
    match SplitOnce(s, '.')
    case None => Err(InvalidPrerelease)
    case Some((lbl, number)) =>
      assert s[|lbl| + 1..] == number;
      match ParseUnsigned(number, U64_BOUND)
      case None => Err(InvalidNumber(number))
      case Some(n) => Ok(Prerelease(lbl, n))
  }

  /** The text before the first '-', which must hold the stable triple. */
  function StablePart(s: String): String {
    match SplitOnce(s, '-')
    case None => s
    case Some((head, _)) => head
  }

  /** `FromStr for Version`: the text before the first '-' must be exactly three
      '.'-separated u64s; the text after it, if any, must be a prerelease. */
  function FromStr(s: String): (r: Result<Version, Error>)
    ensures r.Ok? ==>
              var parts := Split(StablePart(s), '.');
              var stable := StableComponent(r.value);
              && |parts| == 3
              && ParseUnsigned(parts[0], U64_BOUND) == Some(stable.major)
              && ParseUnsigned(parts[1], U64_BOUND) == Some(stable.minor)
              && ParseUnsigned(parts[2], U64_BOUND) == Some(stable.patch)
    ensures r.Ok? ==> (IsPrerelease(r.value) <==> '-' in s)
  {
    var (version, pre) :=
      match SplitOnce(s, '-')
      case None => (s, None)
      case Some((head, tail)) => (head, Some(tail));
    var numbers :- ParseNumbers(Split(version, '.'));
    if |numbers| != 3 then Err(WrongPartCount)
    else
      var stable := StableVersion(numbers[0], numbers[1], numbers[2]);
      match pre
      case None => Ok(Stable(stable))
      case Some(p) =>
        var prerelease :- PrereleaseFromStr(p);
        Ok(Pre(PreVersion(stable, prerelease)))
  }

  /** The versions whose components fit in u64 and whose label has no '.' (the prerelease
      text form cannot tell a '.' inside the label from the separator). */
  predicate Representable(v: Version) {
    var s := StableComponent(v);
    && s.major < U64_BOUND && s.minor < U64_BOUND && s.patch < U64_BOUND
    && (v.Pre? ==> v.pre.preComponent.version < U64_BOUND && '.' !in v.pre.preComponent.name)
  }

  lemma NoSeparatorInDigits(s: String)
    requires AllDigits(s)
    ensures '.' !in s && '-' !in s
  {
  }

  lemma JoinThree(a: String, b: String, c: String, sep: String)
    ensures Join([a, b, c], sep) == a + sep + b + sep + c
  {
    assert [a, b, c][1..] == [b, c];
    assert [b, c][1..] == [c];
    assert Join([c], sep) == c;
    assert Join([b, c], sep) == b + sep + c;
  }

  lemma StableTextSplits(s: StableVersion)
    ensures '-' !in StableToString(s)
    ensures Split(StableToString(s), '.') == [NatToString(s.major), NatToString(s.minor), NatToString(s.patch)]
  {
    var a, b, c := NatToString(s.major), NatToString(s.minor), NatToString(s.patch);
    var parts := [a, b, c];
    JoinThree(a, b, c, ".");
    NoSeparatorInDigits(a);
    NoSeparatorInDigits(b);
    NoSeparatorInDigits(c);
    SplitJoin(parts, '.');
  }

  lemma ParseNumbersCons(part: String, rest: seq<String>, n: nat, ns: seq<nat>)
    requires ParseUnsigned(part, U64_BOUND) == Some(n)
    requires ParseNumbers(rest) == Ok(ns)
    ensures ParseNumbers([part] + rest) == Ok([n] + ns)
  {
    assert ([part] + rest)[1..] == rest;
  }

  lemma ParseThreeNumbers(x: nat, y: nat, z: nat)
    requires x < U64_BOUND && y < U64_BOUND && z < U64_BOUND
    ensures ParseNumbers([NatToString(x), NatToString(y), NatToString(z)]) == Ok([x, y, z])
  {
    ParsePrintedUnsigned(x, U64_BOUND);
    ParsePrintedUnsigned(y, U64_BOUND);
    ParsePrintedUnsigned(z, U64_BOUND);
    ParseNumbersCons(NatToString(z), [], z, []);
    assert [NatToString(z)] + [] == [NatToString(z)] && [z] + [] == [z];
    ParseNumbersCons(NatToString(y), [NatToString(z)], y, [z]);
    assert [NatToString(y)] + [NatToString(z)] == [NatToString(y), NatToString(z)] && [y] + [z] == [y, z];
    ParseNumbersCons(NatToString(x), [NatToString(y), NatToString(z)], x, [y, z]);
    assert [NatToString(x)] + [NatToString(y), NatToString(z)] == [NatToString(x), NatToString(y), NatToString(z)];
    assert [x] + [y, z] == [x, y, z];
  }

  lemma StableTextRoundTrip(s: StableVersion)
    requires s.major < U64_BOUND && s.minor < U64_BOUND && s.patch < U64_BOUND
    ensures '-' !in StableToString(s)
    ensures ParseNumbers(Split(StableToString(s), '.')) == Ok([s.major, s.minor, s.patch])
  {
    StableTextSplits(s);
    ParseThreeNumbers(s.major, s.minor, s.patch);
  }

  /** Printing a representable version and parsing the text gives the version back. */
  lemma RoundTrip(v: Version)
    requires Representable(v)
    ensures FromStr(ToString(v)) == Ok(v)
  {
    var stable := StableComponent(v);
    StableTextRoundTrip(stable);
    var head := StableToString(stable);
    match v
    case Stable(s) =>
      assert SplitOnce(head, '-').None?;
    case Pre(p) =>
      var lbl := p.preComponent.name;
      var number := NatToString(p.preComponent.version);
      assert '.' !in number by { assert AllDigits(number); }
      SplitOnceAt(head, '-', lbl + "." + number);
      assert ToString(v) == head + "-" + (lbl + "." + number);
      SplitOnceAt(lbl, '.', number);
      ParsePrintedUnsigned(p.preComponent.version, U64_BOUND);
      assert PrereleaseFromStr(lbl + "." + number) == Ok(p.preComponent);
  }

  /** A prerelease text is accepted exactly when it is a label, a '.', and a u64. */
  lemma PrereleaseFromStrCases(lbl: String, number: String)
    requires '.' !in lbl
    ensures PrereleaseFromStr(lbl + "." + number).Ok? <==> ParseUnsigned(number, U64_BOUND).Some?
    ensures PrereleaseFromStr(lbl + "." + number).Ok? ==>
              PrereleaseFromStr(lbl + "." + number).value
                == Prerelease(lbl, ParseUnsigned(number, U64_BOUND).value)
  {
    SplitOnceAt(lbl, '.', number);
  }

  /** A prerelease text without '.' is refused, whatever the stable text before it. */
  lemma PrereleaseNeedsDot(stable: String, s: String)
    requires '.' !in s
    ensures PrereleaseFromStr(s) == Err(InvalidPrerelease)
    ensures '-' !in stable ==> FromStr(stable + "-" + s).Err?
  {
    if '-' !in stable {
      SplitOnceAt(stable, '-', s);
      assert stable + "-" + s == stable + ['-'] + s;
    }
  }
}
