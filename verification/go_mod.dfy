/** Setting the version in a Go `go.mod` file (older engine generation). Go records only
    major versions of 2 and above, as a final "/vN" segment of the module path on the
    file's "module" line. */
module GoMod {
  import opened Base
  import opened Text
  import opened SemverCrate
  import opened StepErrors

  const MODULE_PREFIX: String := "module "

  predicate IsModuleLine(line: String) {
    StartsWith(line, MODULE_PREFIX)
  }

  /** The index of the first line that starts with "module ". */
  function FirstModuleLine(lines: seq<String>): (r: Option<nat>)
    ensures r.Some? ==> r.value < |lines| && IsModuleLine(lines[r.value])
    decreases |lines|
  {
    if |lines| == 0 then None
    else if IsModuleLine(lines[0]) then Some(0)
    else
      match FirstModuleLine(lines[1..])
      case None => None
      case Some(k) => Some(k + 1)
  }

  /** `find`: no module line at all, or the index of a module line preceded by none. */
  lemma {:induction false} FirstModuleLineMeaning(lines: seq<String>)
    ensures FirstModuleLine(lines).None? <==> forall i | 0 <= i < |lines| :: !IsModuleLine(lines[i])
    ensures FirstModuleLine(lines).Some? ==>
              forall i | 0 <= i < FirstModuleLine(lines).value :: !IsModuleLine(lines[i])
    decreases |lines|
  {
    if 0 < |lines| && !IsModuleLine(lines[0]) {
      FirstModuleLineMeaning(lines[1..]);
      assert forall i | 1 <= i < |lines| :: lines[i] == lines[1..][i - 1];
    }
  }

  /** The module line of a `go.mod` text: its first line starting with "module ". */
  function ModuleLine(goMod: String): (r: Option<String>)
    ensures r.Some? ==> IsModuleLine(r.value) && '\n' !in r.value
  {
    var lines := Lines(goMod);
    match FirstModuleLine(lines)
    case None => None
    case Some(k) => Some(lines[k])
  }

  /** The module path of a module line: its second whitespace-separated word. */
  function ModulePath(line: String): (r: Option<String>)
    ensures r.Some? ==> 0 < |r.value| && NoWhitespace(r.value)
  {
    var words := SplitWhitespace(line);
    if |words| < 2 then None else Some(words[1])
  }

  /** The major version a path segment records: "v" followed by a `u64`. */
  function SegmentMajor(segment: String): (r: Option<nat>)
    ensures r.Some? ==> StartsWith(segment, "v") && r.value < U64_BOUND
  {
    match StripPrefix(segment, "v")
    case None => None
    case Some(digits) => ParseUnsigned(digits, U64_BOUND)
  }

  function LastSegment(path: String): String {
    var parts := Split(path, '/');
    parts[|parts| - 1]
  }

  /** The major version a `go.mod` text records, if its module line reads one. */
  function ModuleMajor(goMod: String): Option<nat> {
    match ModuleLine(goMod)
    case None => None
    case Some(line) =>
      match ModulePath(line)
      case None => None
      case Some(path) => SegmentMajor(LastSegment(path))
  }

  function MajorSegment(major: nat): String {
    "v" + NatToString(major)
  }

  /** The module path for `major`: the last segment replaced when it records a major
      version, "/vN" appended otherwise. */
  function NewModulePath(path: String, major: nat): String {
    var parts := Split(path, '/');
    if SegmentMajor(LastSegment(path)).Some?
    then Join(parts[..|parts| - 1] + [MajorSegment(major)], "/")
    else path + "/" + MajorSegment(major)
  }

  function NewModuleLine(path: String, major: nat): String {
    MODULE_PREFIX + NewModulePath(path, major)
  }

  /** `set_version`: majors 0 and 1 leave the file alone; otherwise the module line must
      exist and name a module path. A path that already records the new major leaves the
      file alone; otherwise every occurrence of the module line's text is replaced by the
      new module line. */
  function SetVersion(goMod: String, newVersion: SemVer): (r: Result<String, StepError>)
    ensures newVersion.major <= 1 ==> r == Ok(goMod)
    ensures 2 <= newVersion.major && ModuleLine(goMod).None? ==> r == Err(MissingModuleLine)
    ensures 2 <= newVersion.major && ModuleLine(goMod).Some? && ModulePath(ModuleLine(goMod).value).None?
            ==> r == Err(MalformedModuleLine(ModuleLine(goMod).value))
    ensures ModuleMajor(goMod) == Some(newVersion.major) ==> r == Ok(goMod)
  {
    var major := newVersion.major;
    if major == 0 || major == 1 then Ok(goMod)
    else
      match ModuleLine(goMod)
      case None => Err(MissingModuleLine)
      case Some(line) =>
        match ModulePath(line)
        case None => Err(MalformedModuleLine(line))
        case Some(path) =>
          if SegmentMajor(LastSegment(path)) == Some(major) then Ok(goMod)
          else Ok(ReplaceAll(goMod, line, NewModuleLine(path, major)))
  }

  // ---------------------------------------------------------------------------------------
  // Idempotence: the rewritten module line records the new major version

  /** A text that starts with a module line starts with "module " itself. */
  lemma ModuleLinePrefix(p: String, line: String)
    requires IsModuleLine(line)
    ensures StartsWith(p, line) ==> IsModuleLine(p)
  {
    if StartsWith(p, line) {
      assert p[..|MODULE_PREFIX|] == line[..|MODULE_PREFIX|];
    }
  }

  /** An 'm' at positions 1 to 6 rules out the "module " prefix. */
  lemma InnerLetterM(r: String, n: nat)
    requires 0 < n < |MODULE_PREFIX| && n < |r| && r[n] == 'm'
    ensures !IsModuleLine(r)
  {
    if |MODULE_PREFIX| <= |r| {
      assert r[..|MODULE_PREFIX|][n] == 'm';
      assert MODULE_PREFIX[n] != 'm';
    }
  }

  /** Replacing one module line by another inside a line that is not a module line cannot
      make it one: a replacement inside the first seven characters puts an 'm' where
      "module " has none. The first `n` characters are known to be copied unchanged. */
  lemma {:induction false} ReplacedNotModuleFrom(p: String, line: String, newLine: String, n: nat, r: String)
    requires IsModuleLine(line) && IsModuleLine(newLine) && !IsModuleLine(p)
    requires !StartsWith(p, line)
    requires n <= |p| && n <= |MODULE_PREFIX|
    requires r == p[..n] + ReplaceAll(p[n..], line, newLine)
    ensures !IsModuleLine(r)
    decreases |MODULE_PREFIX| - n
  {
    var tail := p[n..];
    if n == |p| {
      assert r == p by {
        assert tail == [] && p[..n] == p;
      }
    } else if n == |MODULE_PREFIX| {
      assert r[..n] == p[..n];
    } else if StartsWith(tail, line) {
      assert 0 < n by { assert p[0..] == p; }
      assert r[n] == 'm' by {
        var after := ReplaceAll(tail[|line|..], line, newLine);
        assert ReplaceAll(tail, line, newLine) == newLine + after;
        assert r == p[..n] + (newLine + after);
        assert newLine[0] == 'm';
      }
      InnerLetterM(r, n);
    } else {
      var rest := ReplaceAll(p[n + 1..], line, newLine);
      assert r == p[..n + 1] + rest by {
        ReplaceAllCopyFirst(tail, line, newLine);
        assert tail[1..] == p[n + 1..];
        assert p[..n] + [tail[0]] == p[..n + 1];
      }
      ReplacedNotModuleFrom(p, line, newLine, n + 1, r);
    }
  }

  lemma ReplacedNotModule(p: String, line: String, newLine: String)
    requires IsModuleLine(line) && IsModuleLine(newLine) && !IsModuleLine(p)
    ensures !IsModuleLine(ReplaceAll(p, line, newLine))
  {
    ModuleLinePrefix(p, line);
    assert p[..0] == [] && p[0..] == p;
    ReplacedNotModuleFrom(p, line, newLine, 0, ReplaceAll(p, line, newLine));
  }

  /** "vN" reads back as major version N and holds no '/' and no whitespace. */
  lemma MajorSegmentReadsBack(major: nat)
    requires major < U64_BOUND
    ensures SegmentMajor(MajorSegment(major)) == Some(major)
    ensures '/' !in MajorSegment(major) && 'v' in MajorSegment(major)
    ensures NoWhitespace(MajorSegment(major))
  {
    var digits := NatToString(major);
    var seg := MajorSegment(major);
    assert seg[..1] == "v" && seg[1..] == digits;
    ParsePrintedUnsigned(major, U64_BOUND);
    assert seg[0] == 'v';
    forall i | 0 <= i < |seg| ensures seg[i] != '/' && !IsWhitespace(seg[i]) {
      if 0 < i {
        assert seg[i] == digits[i - 1];
        assert IsDigit(digits[i - 1]);
      }
    }
  }

  /** Characters of the parts of a '/'-joined path occur in the path. */
  lemma PathPartsNoWhitespace(path: String)
    requires NoWhitespace(path)
    ensures forall i, c | 0 <= i < |Split(path, '/')| && c in Split(path, '/')[i] :: !IsWhitespace(c)
  {
    var parts := Split(path, '/');
    JoinSplit(path, '/');
    forall i, c | 0 <= i < |parts| && c in parts[i] ensures !IsWhitespace(c) {
      PartCharsInJoin(parts, "/", i, c);
    }
  }

  /** The segments of a module path for `major`, given the old path's segments: the
      earlier segments kept, and the last one replaced by "vN" when it records a major
      version, "vN" appended otherwise. */
  function SegmentsForMajor(parts: seq<String>, major: nat): seq<String>
    requires 0 < |parts|
  {
    if SegmentMajor(parts[|parts| - 1]).Some? then parts[..|parts| - 1] + [MajorSegment(major)]
    else parts + [MajorSegment(major)]
  }

  /** The new module path is one whitespace-free word; its segments are the old path's,
      with the last one replaced by "vN" when it records a major version, and with "vN"
      appended otherwise. */
  lemma NewModulePathShape(path: String, major: nat)
    requires 0 < |path| && NoWhitespace(path) && major < U64_BOUND
    ensures 0 < |NewModulePath(path, major)| && NoWhitespace(NewModulePath(path, major))
    ensures LastSegment(NewModulePath(path, major)) == MajorSegment(major)
    ensures Split(NewModulePath(path, major), '/') == SegmentsForMajor(Split(path, '/'), major)
  {
    var parts := Split(path, '/');
    var seg := MajorSegment(major);
    var np := NewModulePath(path, major);
    if SegmentMajor(LastSegment(path)).Some? {
      var ps := parts[..|parts| - 1] + [seg];
      assert Split(np, '/') == SegmentsForMajor(parts, major) && 0 < |np| && NoWhitespace(np) by {
        MajorSegmentReadsBack(major);
        assert forall i | 0 <= i < |ps| :: '/' !in ps[i] && NoWhitespace(ps[i]) by {
          PathPartsNoWhitespace(path);
          forall i | 0 <= i < |ps| ensures '/' !in ps[i] && NoWhitespace(ps[i]) {
            if i < |ps| - 1 { assert ps[i] == parts[i]; }
          }
        }
        assert 0 < |ps[|ps| - 1]| by { assert 'v' in seg; }
        PathOfSegments(ps);
        assert np == Join(ps, "/");
      }
    } else {
      assert Split(np, '/') == SegmentsForMajor(parts, major) && NoWhitespace(np) by {
        MajorSegmentReadsBack(major);
        AppendedPath(path, seg);
        assert np == path + "/" + seg;
      }
    }
  }

  /** Joining whitespace-free, '/'-free segments whose last is non-empty gives a non-empty
      whitespace-free path that splits back into the segments. */
  lemma PathOfSegments(ps: seq<String>)
    requires 0 < |ps| && 0 < |ps[|ps| - 1]|
    requires forall i | 0 <= i < |ps| :: '/' !in ps[i] && NoWhitespace(ps[i])
    ensures Split(Join(ps, "/"), '/') == ps
    ensures 0 < |Join(ps, "/")| && NoWhitespace(Join(ps, "/"))
  {
    var np := Join(ps, "/");
    SplitJoin(ps, '/');
    PartCharsInJoin(ps, "/", |ps| - 1, ps[|ps| - 1][0]);
    forall j | 0 <= j < |np| ensures !IsWhitespace(np[j]) {
      JoinChars(ps, "/", np[j]);
      if np[j] !in "/" {
        var i :| 0 <= i < |ps| && np[j] in ps[i];
      }
    }
  }

  /** Appending "/" and a whitespace-free, '/'-free segment to a whitespace-free path. */
  lemma AppendedPath(path: String, seg: String)
    requires NoWhitespace(path) && NoWhitespace(seg) && '/' !in seg
    ensures Split(path + "/" + seg, '/') == Split(path, '/') + [seg]
    ensures NoWhitespace(path + "/" + seg)
  {
    var np := path + "/" + seg;
    assert np == path + ['/'] + seg;
    SplitAppendPiece(path, '/', seg);
    forall j | 0 <= j < |np| ensures !IsWhitespace(np[j]) {
      if j < |path| { assert np[j] == path[j]; }
      else if |path| < j { assert np[j] == seg[j - |path| - 1]; }
    }
  }

  /** The new module line is a module line and names the new path. */
  lemma NewModuleLineReadsPath(path: String, major: nat)
    requires 0 < |path| && NoWhitespace(path) && major < U64_BOUND
    ensures IsModuleLine(NewModuleLine(path, major))
    ensures ModulePath(NewModuleLine(path, major)) == Some(NewModulePath(path, major))
  {
    var np := NewModulePath(path, major);
    var nl := NewModuleLine(path, major);
    NewModulePathShape(path, major);
    assert nl[..|MODULE_PREFIX|] == MODULE_PREFIX;
    ModuleKeyword();
    assert nl == "module" + [' '] + np;
    SplitTwoWords("module", ' ', np);
  }

  /** The keyword of the module directive, followed by a space. */
  lemma ModuleKeyword()
    ensures NoWhitespace("module") && IsWhitespace(' ')
    ensures MODULE_PREFIX == "module" + [' ']
  {
    var k := "module";
    forall i | 0 <= i < |k| ensures !IsWhitespace(k[i]) {
      assert k[i] in {'m', 'o', 'd', 'u', 'l', 'e'};
    }
  }

  /** The new module line holds no line break. */
  lemma NewModuleLineNoBreak(path: String, major: nat)
    requires 0 < |path| && NoWhitespace(path) && major < U64_BOUND
    ensures '\n' !in NewModuleLine(path, major) && '\r' !in NewModuleLine(path, major)
  {
    var np := NewModulePath(path, major);
    var nl := NewModuleLine(path, major);
    NewModulePathShape(path, major);
    forall j | 0 <= j < |nl| ensures !IsWhitespace(nl[j]) || nl[j] == ' ' {
      if |MODULE_PREFIX| <= j { assert nl[j] == np[j - |MODULE_PREFIX|]; }
    }
  }

  /** The '\n'-separated pieces of a text hold none of the characters the text lacks. */
  lemma PiecesLackChar(g: String, c: char)
    requires c !in g
    ensures forall i | 0 <= i < |Split(g, '\n')| :: c !in Split(g, '\n')[i]
  {
    var pieces := Split(g, '\n');
    JoinSplit(g, '\n');
    forall i | 0 <= i < |pieces| ensures c !in pieces[i] {
      if c in pieces[i] {
        PartCharsInJoin(pieces, "\n", i, c);
      }
    }
  }

  /** Replacing in a text without carriage returns, by a replacement without line breaks,
      replaces within each line: the pieces of the result are the replaced pieces. */
  lemma ReplacedPieces(g: String, line: String, newLine: String)
    requires '\r' !in g
    requires 0 < |line| && '\n' !in line
    requires '\n' !in newLine && '\r' !in newLine
    ensures Split(ReplaceAll(g, line, newLine), '\n') == ReplaceEach(Split(g, '\n'), line, newLine)
    ensures '\r' !in ReplaceAll(g, line, newLine)
    ensures forall i | 0 <= i < |Split(g, '\n')| :: '\r' !in Split(g, '\n')[i]
  {
    var g' := ReplaceAll(g, line, newLine);
    var pieces := Split(g, '\n');
    var pieces' := ReplaceEach(pieces, line, newLine);
    JoinSplit(g, '\n');
    ReplaceAllJoin(pieces, '\n', line, newLine);
    assert g' == Join(pieces', "\n");
    PiecesLackChar(g, '\r');
    assert forall i | 0 <= i < |pieces'| :: '\n' !in pieces'[i] && '\r' !in pieces'[i] by {
      forall i | 0 <= i < |pieces'| ensures '\n' !in pieces'[i] && '\r' !in pieces'[i] {
        assert pieces'[i] == ReplaceAll(pieces[i], line, newLine);
        if '\n' in pieces'[i] { ReplaceAllChars(pieces[i], line, newLine, '\n'); }
        if '\r' in pieces'[i] { ReplaceAllChars(pieces[i], line, newLine, '\r'); }
      }
    }
    SplitJoin(pieces', '\n');
    assert '\r' !in g' by {
      if '\r' in g' { JoinChars(pieces', "\n", '\r'); }
    }
  }

  /** Among '\n'-separated pieces without carriage returns, `find` over the lines picks the
      first piece that is a module line. */
  lemma FirstModuleLineOfPieces(pieces: seq<String>, k: nat)
    requires forall i | 0 <= i < |pieces| :: '\r' !in pieces[i]
    requires k < |pieces| && IsModuleLine(pieces[k])
    requires forall i | 0 <= i < k :: !IsModuleLine(pieces[i])
    ensures k < |LinesOfPieces(pieces)| && LinesOfPieces(pieces)[k] == pieces[k]
    ensures FirstModuleLine(LinesOfPieces(pieces)) == Some(k)
  {
    var lines := LinesOfPieces(pieces);
    LinesOfPiecesPlain(pieces);
    assert k < |lines| by {
      assert IsModuleLine(pieces[k]) && !IsModuleLine([]);
    }
    assert lines[k] == pieces[k];
    assert forall i | 0 <= i < k :: !IsModuleLine(lines[i]);
    FirstModuleLineAt(lines, k);
  }

  /** A module line preceded by none is the one `find` picks. */
  lemma {:induction false} FirstModuleLineAt(lines: seq<String>, k: nat)
    requires k < |lines| && IsModuleLine(lines[k])
    requires forall i | 0 <= i < k :: !IsModuleLine(lines[i])
    ensures FirstModuleLine(lines) == Some(k)
    decreases k
  {
    if 0 < k {
      assert !IsModuleLine(lines[0]);
      assert lines[1..][k - 1] == lines[k];
      assert forall i | 0 <= i < k - 1 :: lines[1..][i] == lines[i + 1];
      FirstModuleLineAt(lines[1..], k - 1);
    }
  }

  /** The first module line of a text without '\r' is the first module piece. */
  lemma PieceOfFirstModuleLine(pieces: seq<String>) returns (k: nat)
    requires forall i | 0 <= i < |pieces| :: '\r' !in pieces[i]
    requires FirstModuleLine(LinesOfPieces(pieces)).Some?
    ensures k < |pieces| && IsModuleLine(pieces[k])
    ensures forall i | 0 <= i < k :: !IsModuleLine(pieces[i])
    ensures FirstModuleLine(LinesOfPieces(pieces)) == Some(k)
    ensures k < |LinesOfPieces(pieces)| && LinesOfPieces(pieces)[k] == pieces[k]
  {
    var lines := LinesOfPieces(pieces);
    LinesOfPiecesPlain(pieces);
    FirstModuleLineMeaning(lines);
    k := FirstModuleLine(lines).value;
    assert lines[k] == pieces[k];
    forall i | 0 <= i < k ensures !IsModuleLine(pieces[i]) {
      assert lines[i] == pieces[i];
    }
  }

  /** Without carriage returns, the module line is the first '\n'-separated piece that is
      a module line. */
  lemma ModuleLineOfPieces(s: String, k: nat)
    requires '\r' !in s
    requires k < |Split(s, '\n')| && IsModuleLine(Split(s, '\n')[k])
    requires forall i | 0 <= i < k :: !IsModuleLine(Split(s, '\n')[i])
    ensures ModuleLine(s) == Some(Split(s, '\n')[k])
  {
    PiecesLackChar(s, '\r');
    FirstModuleLineOfPieces(Split(s, '\n'), k);
  }

  /** The piece a module line comes from. */
  lemma ModuleLineIndex(s: String) returns (k: nat)
    requires '\r' !in s && ModuleLine(s).Some?
    ensures k < |Split(s, '\n')| && Split(s, '\n')[k] == ModuleLine(s).value
    ensures forall i | 0 <= i < k :: !IsModuleLine(Split(s, '\n')[i])
  {
    PiecesLackChar(s, '\r');
    k := PieceOfFirstModuleLine(Split(s, '\n'));
  }

  /** Replacing the module line of a text without carriage returns by another module line
      without line breaks makes the new line the text's module line. */
  lemma ModuleLineAfterReplace(g: String, line: String, newLine: String)
    requires '\r' !in g
    requires ModuleLine(g) == Some(line)
    requires IsModuleLine(newLine) && '\n' !in newLine && '\r' !in newLine
    ensures ModuleLine(ReplaceAll(g, line, newLine)) == Some(newLine)
    ensures '\r' !in ReplaceAll(g, line, newLine)
  {
    var k := ModuleLineIndex(g);
    var pieces := Split(g, '\n');
    ReplacedPieces(g, line, newLine);
    var g' := ReplaceAll(g, line, newLine);
    var pieces' := Split(g', '\n');
    assert pieces' == ReplaceEach(pieces, line, newLine);
    ReplaceAllWhole(line, newLine);
    assert pieces'[k] == newLine;
    forall i | 0 <= i < k ensures !IsModuleLine(pieces'[i]) {
      ReplacedNotModule(pieces[i], line, newLine);
    }
    ModuleLineOfPieces(g', k);
  }

  /** After a successful `set_version` to a major version of 2 or more, the file's module
      line records that major version (for text without carriage returns). */
  lemma SetVersionRecordsMajor(goMod: String, newVersion: SemVer)
    requires '\r' !in goMod
    requires 2 <= newVersion.major < U64_BOUND
    requires SetVersion(goMod, newVersion).Ok?
    ensures ModuleMajor(SetVersion(goMod, newVersion).value) == Some(newVersion.major)
    ensures '\r' !in SetVersion(goMod, newVersion).value
  {
    var major := newVersion.major;
    var line := ModuleLine(goMod).value;
    var path := ModulePath(line).value;
    if SegmentMajor(LastSegment(path)) != Some(major) {
      var newLine := NewModuleLine(path, major);
      NewModuleLineReadsPath(path, major);
      NewModuleLineNoBreak(path, major);
      ModuleLineAfterReplace(goMod, line, newLine);
      NewModulePathShape(path, major);
      MajorSegmentReadsBack(major);
    }
  }

  /** What `set_version` does to the module path for `major`: a path already recording
      that major is kept; otherwise the new path has the segments `SegmentsForMajor`. */
  predicate PathForMajor(path: String, newPath: String, major: nat) {
    var parts := Split(path, '/');
    if SegmentMajor(parts[|parts| - 1]) == Some(major) then newPath == path
    else Split(newPath, '/') == SegmentsForMajor(parts, major)
  }

  /** After a successful `set_version` to a major version of 2 or more, the file's module
      line names a path that keeps the old path's earlier segments and records the new
      major as its last one (for text without carriage returns). */
  lemma SetVersionModulePath(goMod: String, newVersion: SemVer)
    requires '\r' !in goMod
    requires 2 <= newVersion.major < U64_BOUND
    requires SetVersion(goMod, newVersion).Ok?
    ensures ModuleLine(goMod).Some? && ModulePath(ModuleLine(goMod).value).Some?
    ensures var result := SetVersion(goMod, newVersion).value;
            && ModuleLine(result).Some? && ModulePath(ModuleLine(result).value).Some?
            && PathForMajor(ModulePath(ModuleLine(goMod).value).value, ModulePath(ModuleLine(result).value).value,
                            newVersion.major)
  {
    var major := newVersion.major;
    var line := ModuleLine(goMod).value;
    var path := ModulePath(line).value;
    if SegmentMajor(LastSegment(path)) == Some(major) {
      assert SetVersion(goMod, newVersion) == Ok(goMod);
    } else {
      var newLine := NewModuleLine(path, major);
      assert SetVersion(goMod, newVersion) == Ok(ReplaceAll(goMod, line, newLine));
      NewModuleLineReadsPath(path, major);
      NewModuleLineNoBreak(path, major);
      ModuleLineAfterReplace(goMod, line, newLine);
      NewModulePathShape(path, major);
      assert PathForMajor(path, NewModulePath(path, major), major);
    }
  }

  /** Whether `part` occurs somewhere in `text`. */
  predicate Mentions(text: String, part: String) {
    exists j | 0 <= j < |text| :: StartsWith(text[j..], part)
  }

  /** `set_version` rewrites nothing but occurrences of the module line's text: a path
      already recording the new major leaves the file as it was; otherwise every line of the
      result is the old line with those occurrences replaced by the new module line, so a
      line not containing the module line's text, such as a `go`, `require` or `replace`
      directive, is kept as it was (for text without carriage returns). */
  lemma SetVersionKeepsOtherLines(goMod: String, newVersion: SemVer)
    requires '\r' !in goMod
    requires 2 <= newVersion.major < U64_BOUND
    requires SetVersion(goMod, newVersion).Ok?
    ensures ModuleLine(goMod).Some? && ModulePath(ModuleLine(goMod).value).Some?
    ensures var line := ModuleLine(goMod).value;
            var path := ModulePath(line).value;
            var result := SetVersion(goMod, newVersion).value;
            && (SegmentMajor(LastSegment(path)) == Some(newVersion.major) ==> result == goMod)
            && (SegmentMajor(LastSegment(path)) != Some(newVersion.major) ==>
                  Split(result, '\n') == ReplaceEach(Split(goMod, '\n'), line, NewModuleLine(path, newVersion.major)))
    ensures var line := ModuleLine(goMod).value;
            var pieces := Split(goMod, '\n');
            var result := SetVersion(goMod, newVersion).value;
            && |Split(result, '\n')| == |pieces|
            && forall i | 0 <= i < |pieces| && !Mentions(pieces[i], line) :: Split(result, '\n')[i] == pieces[i]
  {
    var major := newVersion.major;
    var line := ModuleLine(goMod).value;
    var path := ModulePath(line).value;
    var pieces := Split(goMod, '\n');
    if SegmentMajor(LastSegment(path)) == Some(major) {
      assert SetVersion(goMod, newVersion) == Ok(goMod);
    } else {
      var newLine := NewModuleLine(path, major);
      assert SetVersion(goMod, newVersion) == Ok(ReplaceAll(goMod, line, newLine));
      NewModuleLineNoBreak(path, major);
      assert 0 < |line| by { assert IsModuleLine(line); }
      ReplacedPieces(goMod, line, newLine);
      var pieces' := Split(ReplaceAll(goMod, line, newLine), '\n');
      forall i | 0 <= i < |pieces| && !Mentions(pieces[i], line) ensures pieces'[i] == pieces[i] {
        ReplaceAllAbsent(pieces[i], line, newLine);
      }
    }
  }

  /** Setting the same version twice changes nothing the second time. */
  lemma SetVersionIdempotent(goMod: String, newVersion: SemVer)
    requires '\r' !in goMod
    requires newVersion.major < U64_BOUND
    requires SetVersion(goMod, newVersion).Ok?
    ensures SetVersion(SetVersion(goMod, newVersion).value, newVersion) == SetVersion(goMod, newVersion)
  {
    if 2 <= newVersion.major {
      SetVersionRecordsMajor(goMod, newVersion);
    }
  }
}
