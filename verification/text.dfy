/** The slice of Rust's `str` and integer-parsing behaviour the release engine relies on,
    stated over `seq<char>`: decimal printing and parsing of unsigned integers, `split_once`,
    `split`, `join`, `replace`, `lines` and `split_whitespace`. */
module Text {
  import opened Base

  type String = seq<char>

  // ---------------------------------------------------------------------------------------
  // Decimal digits

  predicate IsDigit(c: char) {
    '0' <= c <= '9'
  }

  function DigitValue(c: char): nat
    requires IsDigit(c)
  {
    (c as int - '0' as int) as nat
  }

  function DigitChar(d: nat): (c: char)
    requires d < 10
    ensures IsDigit(c) && DigitValue(c) == d
  {
    ('0' as int + d) as char
  }

  predicate AllDigits(s: String) {
    forall i | 0 <= i < |s| :: IsDigit(s[i])
  }

  /** The value of a string of decimal digits, most significant first. */
  function DigitsValue(s: String): nat
    requires AllDigits(s)
    decreases |s|
  {
    if |s| == 0 then 0 else DigitsValue(s[..|s| - 1]) * 10 + DigitValue(s[|s| - 1])
  }

  /** Exclusive upper bounds of Rust's `u64` and `u16`. */
  const U64_BOUND: nat := 0x1_0000_0000_0000_0000
  const U16_BOUND: nat := 0x1_0000

  /** Rust's `str::parse` for an unsigned integer type whose values lie below `bound`
      (`u64`, `u16`): one optional leading `+`, then at least one ASCII digit (leading zeros
      allowed); a value that does not fit the type is an error. */
  function ParseUnsigned(s: String, bound: nat): (r: Option<nat>)
    ensures r.Some? ==> r.value < bound
    ensures r.Some? ==> 0 < |s| && forall i | 0 <= i < |s| :: IsDigit(s[i]) || (i == 0 && s[i] == '+')
  {
    var digits := if 0 < |s| && s[0] == '+' then s[1..] else s;
    if |digits| == 0 || !AllDigits(digits) then None
    else if DigitsValue(digits) < bound then Some(DigitsValue(digits))
    else None
  }

  /** Rust's `Display` for an unsigned integer: canonical decimal without leading zeros. */
  function NatToString(n: nat): (r: String)
    ensures 0 < |r| && AllDigits(r) && DigitsValue(r) == n
    ensures r[0] == '0' ==> r == "0"
    decreases n
  {
    if n < 10 then [DigitChar(n)]
    else
      var prefix := NatToString(n / 10);
      var r := prefix + [DigitChar(n % 10)];
      assert r[..|r| - 1] == prefix;
      r
  }

  /** Printing a representable value and parsing it back gives the value. */
  lemma ParsePrintedUnsigned(n: nat, bound: nat)
    requires n < bound
    ensures ParseUnsigned(NatToString(n), bound) == Some(n)
  {
  }

  // ---------------------------------------------------------------------------------------
  // Prefixes and single-character splitting

  predicate StartsWith(s: String, prefix: String) {
    |prefix| <= |s| && s[..|prefix|] == prefix
  }

  /** Rust's `str::strip_prefix`. */
  function StripPrefix(s: String, prefix: String): (r: Option<String>)
    ensures r.Some? <==> StartsWith(s, prefix)
    ensures r.Some? ==> s == prefix + r.value
  {
    if StartsWith(s, prefix) then Some(s[|prefix|..]) else None
  }

  /** The index of the first occurrence of `c` in `s`. */
  function IndexOf(s: String, c: char): (r: Option<nat>)
    ensures r.None? <==> c !in s
    ensures r.Some? ==> r.value < |s| && s[r.value] == c && c !in s[..r.value]
    decreases |s|
  {
    if |s| == 0 then None
    else if s[0] == c then Some(0)
    else
      match IndexOf(s[1..], c)
      case None => None
      case Some(i) =>
        assert s[..i + 1] == [s[0]] + s[1..][..i];
        Some(i + 1)
  }

  /** Rust's `str::split_once(char)`: the text before and after the first `c`. */
  function SplitOnce(s: String, c: char): (r: Option<(String, String)>)
    ensures r.None? <==> c !in s
    ensures r.Some? ==> s == r.value.0 + [c] + r.value.1 && c !in r.value.0
  {
    match IndexOf(s, c)
    case None => None
    case Some(i) =>
      assert s == s[..i] + [c] + s[i + 1..];
      Some((s[..i], s[i + 1..]))
  }

  /** `split_once` cuts at the first separator, so a separator-free head comes back intact. */
  lemma SplitOnceAt(a: String, c: char, b: String)
    requires c !in a
    ensures SplitOnce(a + [c] + b, c) == Some((a, b))
  {
    var s := a + [c] + b;
    assert s[|a|] == c;
    var r := SplitOnce(s, c);
    var a', b' := r.value.0, r.value.1;
    assert |a'| == |a|;
    assert a' == s[..|a|] == a;
    assert b' == s[|a| + 1..] == b;
  }

  /** Rust's `slice::join` for strings. */
  function Join(parts: seq<String>, sep: String): String
    decreases |parts|
  {
    if |parts| == 0 then []
    else if |parts| == 1 then parts[0]
    else parts[0] + sep + Join(parts[1..], sep)
  }

  /** Rust's `str::split(char)`: every piece, empty ones included; never an empty list. */
  function Split(s: String, c: char): (r: seq<String>)
    ensures 0 < |r|
    ensures forall i | 0 <= i < |r| :: c !in r[i]
    decreases |s|
  {
    match SplitOnce(s, c)
    case None => [s]
    case Some((a, b)) => [a] + Split(b, c)
  }

  /** Joining the pieces of a split with the separator gives the text back. */
  lemma {:induction false} JoinSplit(s: String, c: char)
    ensures Join(Split(s, c), [c]) == s
    decreases |s|
  {
    match SplitOnce(s, c)
    case None =>
    case Some((a, b)) =>
      JoinSplit(b, c);
      var rest := Split(b, c);
      assert ([a] + rest)[1..] == rest;
  }

  /** Splitting a join of separator-free pieces gives the pieces back. */
  lemma {:induction false} SplitJoin(parts: seq<String>, c: char)
    requires 0 < |parts|
    requires forall i | 0 <= i < |parts| :: c !in parts[i]
    ensures Split(Join(parts, [c]), c) == parts
    decreases |parts|
  {
    if |parts| == 1 {
      assert Join(parts, [c]) == parts[0];
      SplitWithout(parts[0], c);
    } else {
      var rest := parts[1..];
      assert Join(parts, [c]) == parts[0] + [c] + Join(rest, [c]);
      SplitStep(parts[0], c, Join(rest, [c]));
      SplitJoin(rest, c);
      assert parts == [parts[0]] + rest;
    }
  }

  /** A text without the separator is one piece. */
  lemma SplitWithout(s: String, c: char)
    requires c !in s
    ensures Split(s, c) == [s]
  {
  }

  /** A separator-free head is the first piece. */
  lemma SplitStep(a: String, c: char, b: String)
    requires c !in a
    ensures Split(a + [c] + b, c) == [a] + Split(b, c)
  {
    SplitOnceAt(a, c, b);
  }

  /** The last piece of a split is the text after the last separator. */
  lemma {:induction false} SplitAppendPiece(s: String, c: char, tail: String)
    requires c !in tail
    ensures Split(s + [c] + tail, c) == Split(s, c) + [tail]
    decreases |s|
  {
    var t := s + [c] + tail;
    match SplitOnce(s, c)
    case None =>
      SplitStep(s, c, tail);
      SplitWithout(tail, c);
      SplitWithout(s, c);
    case Some((a, b)) =>
      assert t == a + [c] + (b + [c] + tail);
      SplitStep(a, c, b + [c] + tail);
      calc {
        Split(t, c);
        [a] + Split(b + [c] + tail, c);
        { SplitAppendPiece(b, c, tail); }
        [a] + (Split(b, c) + [tail]);
        ([a] + Split(b, c)) + [tail];
        Split(s, c) + [tail];
      }
  }

  // ---------------------------------------------------------------------------------------
  // Replacing every occurrence

  /** Rust's `str::replace`: every non-overlapping occurrence of `from`, scanning left to
      right, becomes `to`; an empty `from` matches before every character and at the end. */
  function ReplaceAll(s: String, from: String, to: String): String
    decreases |s|
  {
    if |from| == 0 then
      if |s| == 0 then to else to + [s[0]] + ReplaceAll(s[1..], from, to)
    else if |s| == 0 then []
    else if StartsWith(s, from) then to + ReplaceAll(s[|from|..], from, to)
    else [s[0]] + ReplaceAll(s[1..], from, to)
  }

  /** Replacing introduces no character beyond those of the text and the replacement. */
  lemma {:induction false} ReplaceAllChars(s: String, from: String, to: String, ch: char)
    requires ch in ReplaceAll(s, from, to)
    ensures ch in s || ch in to
    decreases |s|
  {
    if |from| == 0 {
      if |s| != 0 && ch !in to && ch != s[0] {
        ReplaceAllChars(s[1..], from, to, ch);
      }
    } else if |s| != 0 {
      if StartsWith(s, from) {
        if ch !in to {
          ReplaceAllChars(s[|from|..], from, to, ch);
          assert s[|from|..] == s[|from|..|s|];
        }
      } else if ch != s[0] {
        ReplaceAllChars(s[1..], from, to, ch);
      }
    }
  }

  /** Text in which `from` never occurs comes back unchanged. */
  lemma {:induction false} ReplaceAllAbsent(s: String, from: String, to: String)
    requires 0 < |from|
    requires forall i | 0 <= i < |s| :: !StartsWith(s[i..], from)
    ensures ReplaceAll(s, from, to) == s
    decreases |s|
  {
    if 0 < |s| {
      assert s[0..] == s;
      forall i | 0 <= i < |s[1..]|
        ensures !StartsWith(s[1..][i..], from)
      {
        assert s[1..][i..] == s[i + 1..];
      }
      ReplaceAllAbsent(s[1..], from, to);
    }
  }

  /** No occurrence of `from` starts where `from`'s first character does not occur. */
  lemma ReplaceAllNoStart(s: String, from: String, to: String)
    requires 0 < |from|
    requires forall i | 0 <= i && i + |from| <= |s| :: s[i] != from[0]
    ensures ReplaceAll(s, from, to) == s
  {
    forall i | 0 <= i < |s|
      ensures !StartsWith(s[i..], from)
    {
      if i + |from| <= |s| {
        assert s[i..][0] == s[i];
      }
    }
    ReplaceAllAbsent(s, from, to);
  }

  /** A character that `from` does not contain cuts the replacement in two: no occurrence of
      `from` can straddle it. */
  lemma {:induction false} ReplaceAllAcross(x: String, c: char, y: String, from: String, to: String)
    requires 0 < |from| && c !in from
    ensures ReplaceAll(x + [c] + y, from, to) == ReplaceAll(x, from, to) + [c] + ReplaceAll(y, from, to)
    decreases |x|
  {
    var s := x + [c] + y;
    var ry := ReplaceAll(y, from, to);
    if |x| == 0 {
      assert s == [c] + y;
      assert s[0] == c;
      assert s[1..] == y;
      assert !StartsWith(s, from) by { assert from[0] != c; }
      ReplaceAllCopyFirst(s, from, to);
      assert ReplaceAll(x, from, to) == [];
    } else if StartsWith(s, from) {
      assert s[|x|] == c;
      assert |from| <= |x|;
      var rest := x[|from|..];
      assert StartsWith(x, from) by { assert x[..|from|] == s[..|from|]; }
      assert s[|from|..] == rest + [c] + y;
      ReplaceAllSkipMatch(s, from, to);
      ReplaceAllSkipMatch(x, from, to);
      ReplaceAllAcross(rest, c, y, from, to);
      ConcatRegroup(to, ReplaceAll(rest, from, to), [c], ry);
    } else {
      var rest := x[1..];
      assert !StartsWith(x, from) by {
        assert |from| <= |x| ==> s[..|from|] == x[..|from|];
      }
      assert s[0] == x[0];
      assert s[1..] == rest + [c] + y;
      ReplaceAllCopyFirst(s, from, to);
      ReplaceAllCopyFirst(x, from, to);
      ReplaceAllAcross(rest, c, y, from, to);
      ConcatRegroup([x[0]], ReplaceAll(rest, from, to), [c], ry);
    }
  }

  lemma ConcatRegroup(a: String, b: String, c: String, d: String)
    ensures a + (b + c + d) == (a + b) + c + d
  {
  }

  /** An occurrence at the start is replaced and skipped. */
  lemma ReplaceAllSkipMatch(q: String, from: String, to: String)
    requires 0 < |from| && StartsWith(q, from)
    ensures ReplaceAll(q, from, to) == to + ReplaceAll(q[|from|..], from, to)
  {
  }

  /** A first character that starts no occurrence is copied. */
  lemma ReplaceAllCopyFirst(q: String, from: String, to: String)
    requires 0 < |from| && 0 < |q| && !StartsWith(q, from)
    ensures ReplaceAll(q, from, to) == [q[0]] + ReplaceAll(q[1..], from, to)
  {
  }

  /** Replacing in a string that is exactly one occurrence of `from`. */
  lemma ReplaceAllWhole(from: String, to: String)
    requires 0 < |from|
    ensures ReplaceAll(from, from, to) == to
  {
    assert StartsWith(from, from);
    assert from[|from|..] == [];
  }

  function ReplaceEach(parts: seq<String>, from: String, to: String): (r: seq<String>)
    ensures |r| == |parts|
    ensures forall i | 0 <= i < |parts| :: r[i] == ReplaceAll(parts[i], from, to)
    decreases |parts|
  {
    if |parts| == 0 then [] else [ReplaceAll(parts[0], from, to)] + ReplaceEach(parts[1..], from, to)
  }

  /** Replacement commutes with joining on a separator that `from` does not contain. */
  lemma {:induction false} ReplaceAllJoin(parts: seq<String>, c: char, from: String, to: String)
    requires 0 < |from| && c !in from
    ensures ReplaceAll(Join(parts, [c]), from, to) == Join(ReplaceEach(parts, from, to), [c])
    decreases |parts|
  {
    if |parts| == 0 {
    } else if |parts| == 1 {
    } else {
      ReplaceAllAcross(parts[0], c, Join(parts[1..], [c]), from, to);
      ReplaceAllJoin(parts[1..], c, from, to);
      assert ReplaceEach(parts, from, to)[1..] == ReplaceEach(parts[1..], from, to);
    }
  }

  // ---------------------------------------------------------------------------------------
  // Lines

  /** Drops one trailing '\r'. */
  function StripCarriageReturn(l: String): (r: String)
    ensures |r| <= |l| && r == l[..|r|]
  {
    if 0 < |l| && l[|l| - 1] == '\r' then l[..|l| - 1] else l
  }

  /** The lines of the '\n'-separated `pieces`: a final empty piece is no line, and every
      piece that a '\n' ended loses one trailing '\r'. */
  function LinesOfPieces(pieces: seq<String>): seq<String>
    decreases |pieces|
  {
    if |pieces| == 0 then []
    else if |pieces| == 1 then (if |pieces[0]| == 0 then [] else [pieces[0]])
    else [StripCarriageReturn(pieces[0])] + LinesOfPieces(pieces[1..])
  }

  /** Rust's `str::lines()`: lines end at "\n" or "\r\n"; the last line needs no terminator,
      and a bare '\r' at the very end of the text stays part of the last line. */
  function Lines(s: String): (r: seq<String>)
    ensures forall i | 0 <= i < |r| :: '\n' !in r[i]
  {
    LinesOfPiecesNoNewline(Split(s, '\n'));
    LinesOfPieces(Split(s, '\n'))
  }

  lemma {:induction false} LinesOfPiecesNoNewline(pieces: seq<String>)
    requires forall i | 0 <= i < |pieces| :: '\n' !in pieces[i]
    ensures forall i | 0 <= i < |LinesOfPieces(pieces)| :: '\n' !in LinesOfPieces(pieces)[i]
    decreases |pieces|
  {
    if 1 < |pieces| {
      LinesOfPiecesNoNewline(pieces[1..]);
    }
  }

  /** Without carriage returns, the lines are the '\n'-separated pieces, the final piece
      being dropped only when it is empty. */
  lemma {:induction false} LinesOfPiecesPlain(pieces: seq<String>)
    requires forall i | 0 <= i < |pieces| :: '\r' !in pieces[i]
    ensures |LinesOfPieces(pieces)| <= |pieces| <= |LinesOfPieces(pieces)| + 1
    ensures forall i | 0 <= i < |LinesOfPieces(pieces)| :: LinesOfPieces(pieces)[i] == pieces[i]
    ensures |LinesOfPieces(pieces)| < |pieces| ==> pieces[|pieces| - 1] == []
    decreases |pieces|
  {
    if 1 < |pieces| {
      LinesOfPiecesPlain(pieces[1..]);
      var p := pieces[0];
      assert '\r' !in p;
      assert StripCarriageReturn(p) == p by {
        if 0 < |p| { assert p[|p| - 1] in p; }
      }
    }
  }

  /** Without carriage returns, the lines of a text are its '\n'-separated pieces, the final
      piece being dropped only when it is empty. */
  lemma LinesWithoutCarriageReturn(s: String)
    requires '\r' !in s
    ensures |Lines(s)| <= |Split(s, '\n')| <= |Lines(s)| + 1
    ensures forall i | 0 <= i < |Lines(s)| :: Lines(s)[i] == Split(s, '\n')[i]
    ensures |Lines(s)| < |Split(s, '\n')| ==> Split(s, '\n')[|Split(s, '\n')| - 1] == []
  {
    var pieces := Split(s, '\n');
    assert forall i | 0 <= i < |pieces| :: '\r' !in pieces[i] by {
      JoinSplit(s, '\n');
      forall i | 0 <= i < |pieces| ensures '\r' !in pieces[i] {
        if '\r' in pieces[i] { PartCharsInJoin(pieces, "\n", i, '\r'); }
      }
    }
    LinesOfPiecesPlain(pieces);
  }

  /** Every character of a join comes from the separator or from one of the parts. */
  lemma {:induction false} JoinChars(parts: seq<String>, sep: String, c: char)
    requires c in Join(parts, sep)
    ensures c in sep || exists i | 0 <= i < |parts| :: c in parts[i]
    decreases |parts|
  {
    if 1 < |parts| {
      var rest := Join(parts[1..], sep);
      if c !in parts[0] && c !in sep {
        assert c in rest;
        JoinChars(parts[1..], sep, c);
        var i :| 0 <= i < |parts[1..]| && c in parts[1..][i];
        assert c in parts[i + 1];
      }
    }
  }

  /** Every character of a part occurs in the join. */
  lemma {:induction false} PartCharsInJoin(parts: seq<String>, sep: String, i: int, c: char)
    requires 0 <= i < |parts| && c in parts[i]
    ensures c in Join(parts, sep)
    decreases |parts|
  {
    if 1 < |parts| && 0 < i {
      PartCharsInJoin(parts[1..], sep, i - 1, c);
    }
  }

  // ---------------------------------------------------------------------------------------
  // Whitespace

  /** Rust's `char::is_whitespace`: the Unicode White_Space property. */
  predicate IsWhitespace(c: char) {
    var n := c as int;
    || (0x09 <= n <= 0x0D) || n == 0x20 || n == 0x85 || n == 0xA0 || n == 0x1680
    || (0x2000 <= n <= 0x200A) || n == 0x2028 || n == 0x2029 || n == 0x202F
    || n == 0x205F || n == 0x3000
  }

  predicate NoWhitespace(s: String) {
    forall i | 0 <= i < |s| :: !IsWhitespace(s[i])
  }

  function SkipWhitespace(s: String): (r: String)
    ensures |r| <= |s| && r == s[|s| - |r|..]
    ensures 0 < |r| ==> !IsWhitespace(r[0])
    decreases |s|
  {
    if 0 < |s| && IsWhitespace(s[0]) then SkipWhitespace(s[1..]) else s
  }

  /** `trim_end`: `s` without its trailing whitespace. */
  function TrimEnd(s: String): (r: String)
    ensures |r| <= |s| && r == s[..|r|]
    ensures 0 < |r| ==> !IsWhitespace(r[|r| - 1])
    ensures forall i | |r| <= i < |s| :: IsWhitespace(s[i])
    decreases |s|
  {
    if 0 < |s| && IsWhitespace(s[|s| - 1]) then TrimEnd(s[..|s| - 1]) else s
  }

  /** `trim`: `s` without leading and trailing whitespace. */
  function Trim(s: String): (r: String)
    ensures 0 < |r| ==> !IsWhitespace(r[0]) && !IsWhitespace(r[|r| - 1])
    ensures exists i, j | 0 <= i <= j <= |s| :: r == s[i..j]
  {
    var t := SkipWhitespace(s);
    var r := TrimEnd(t);
    assert r == s[|s| - |t|..|s| - |t| + |r|];
    r
  }

  /** The length of the longest whitespace-free prefix of `s`. */
  function TokenLength(s: String): (n: nat)
    ensures n <= |s|
    ensures forall i | 0 <= i < n :: !IsWhitespace(s[i])
    ensures n < |s| ==> IsWhitespace(s[n])
    decreases |s|
  {
    if 0 < |s| && !IsWhitespace(s[0]) then 1 + TokenLength(s[1..]) else 0
  }

  /** Rust's `str::split_whitespace`: the maximal non-empty whitespace-free runs, in order. */
  function SplitWhitespace(s: String): (r: seq<String>)
    ensures forall i | 0 <= i < |r| :: 0 < |r[i]| && NoWhitespace(r[i])
    decreases |s|
  {
    var t := SkipWhitespace(s);
    if |t| == 0 then []
    else
      var n := TokenLength(t);
      var rest := SplitWhitespace(t[n..]);
      assert 0 < n && NoWhitespace(t[..n]);
      WordsCons(t[..n], rest);
      [t[..n]] + rest
  }

  lemma WordsCons(word: String, rest: seq<String>)
    requires 0 < |word| && NoWhitespace(word)
    requires forall i | 0 <= i < |rest| :: 0 < |rest[i]| && NoWhitespace(rest[i])
    ensures forall i | 0 <= i < |[word] + rest| :: 0 < |([word] + rest)[i]| && NoWhitespace(([word] + rest)[i])
  {
    forall i | 0 <= i < |[word] + rest|
      ensures 0 < |([word] + rest)[i]| && NoWhitespace(([word] + rest)[i])
    {
      if i == 0 { assert ([word] + rest)[0] == word; } else { assert ([word] + rest)[i] == rest[i - 1]; }
    }
  }

  lemma {:induction false} TokenLengthOfWord(word: String, rest: String)
    requires NoWhitespace(word)
    requires 0 < |rest| ==> IsWhitespace(rest[0])
    ensures TokenLength(word + rest) == |word|
    decreases |word|
  {
    if |word| == 0 {
      assert word + rest == rest;
    } else {
      assert (word + rest)[0] == word[0];
      assert (word + rest)[1..] == word[1..] + rest;
      TokenLengthOfWord(word[1..], rest);
    }
  }

  /** One word, possibly followed by whitespace-led text, is the first token. */
  lemma SplitWordThen(word: String, rest: String)
    requires 0 < |word| && NoWhitespace(word)
    requires 0 < |rest| ==> IsWhitespace(rest[0])
    ensures SplitWhitespace(word + rest) == [word] + SplitWhitespace(rest)
  {
    var s := word + rest;
    assert !IsWhitespace(s[0]);
    assert SkipWhitespace(s) == s;
    TokenLengthOfWord(word, rest);
    assert s[..|word|] == word;
    assert s[|word|..] == rest;
  }

  /** Two words separated by one whitespace character split into exactly those two words. */
  lemma SplitTwoWords(a: String, w: char, b: String)
    requires 0 < |a| && NoWhitespace(a)
    requires 0 < |b| && NoWhitespace(b)
    requires IsWhitespace(w)
    ensures SplitWhitespace(a + [w] + b) == [a, b]
  {
    assert a + [w] + b == a + ([w] + b);
    SplitWordThen(a, [w] + b);
    SplitLeadingWhitespace(w, b);
    SplitOneWord(b);
  }

  lemma SplitLeadingWhitespace(w: char, s: String)
    requires IsWhitespace(w)
    ensures SplitWhitespace([w] + s) == SplitWhitespace(s)
  {
    assert ([w] + s)[1..] == s;
    assert SkipWhitespace([w] + s) == SkipWhitespace(s);
  }

  lemma SplitOneWord(word: String)
    requires 0 < |word| && NoWhitespace(word)
    ensures SplitWhitespace(word) == [word]
  {
    SplitWordThen(word, []);
    assert word + [] == word;
    assert SplitWhitespace([]) == [];
  }
}
