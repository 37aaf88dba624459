/** String operations with the meaning the JavaScript runtime gives them:
    whitespace (`trim`, `\s`), case mapping, substring search, splitting and joining.
    Strings are sequences of code points. */
module Text {
  import opened Types

  /** The WhiteSpace and LineTerminator code points of ECMAScript: what `trim` removes and `\s` matches. */
  const SPACES: set<char> := {
    ' ', '\t', '\n', '\r', '\U{000B}', '\U{000C}', '\U{00A0}', '\U{1680}',
    '\U{2000}', '\U{2001}', '\U{2002}', '\U{2003}', '\U{2004}', '\U{2005}', '\U{2006}', '\U{2007}',
    '\U{2008}', '\U{2009}', '\U{200A}',
    '\U{2028}', '\U{2029}', '\U{202F}', '\U{205F}', '\U{3000}', '\U{FEFF}'
  }

  predicate IsSpace(c: char) {
    c in SPACES
  }

  /** `[0-9]`, the only characters `\d` matches. */
  predicate IsDigit(c: char) {
    '0' <= c <= '9'
  }

  predicate AllSpace(s: string) {
    forall i :: 0 <= i < |s| ==> IsSpace(s[i])
  }

  predicate AllDigits(s: string) {
    forall i :: 0 <= i < |s| ==> IsDigit(s[i])
  }

  // ---------------------------------------------------------------------------
  // trim

  /** Leading whitespace removed: the longest suffix that does not start with whitespace. */
  function TrimStart(s: string): (r: string)
    ensures IsTrimStartOf(s, r)
  {
    if |s| > 0 && IsSpace(s[0]) then
      var r := TrimStart(s[1..]);
      TrimStartCons(s, r);
      r
    else s
  }

  /** `r` is a suffix of `s` that does not start with whitespace, cut after whitespace only. */
  predicate IsTrimStartOf(s: string, r: string) {
    && |r| <= |s| && r == s[|s| - |r|..]
    && AllSpace(s[..|s| - |r|])
    && (|r| == 0 || !IsSpace(r[0]))
  }

  /** A leading space cut before the trimmed rest. */
  lemma TrimStartCons(s: string, r: string)
    requires |s| > 0 && IsSpace(s[0]) && IsTrimStartOf(s[1..], r)
    ensures IsTrimStartOf(s, r)
  {
    var n := |s| - |r|;
    assert s[..n] == [s[0]] + s[1..][..n - 1];
  }

  /** Trailing whitespace removed: the longest prefix that does not end with whitespace. */
  function TrimEnd(s: string): (r: string)
    ensures IsTrimEndOf(s, r)
  {
    if |s| > 0 && IsSpace(s[|s| - 1]) then
      var r := TrimEnd(s[..|s| - 1]);
      TrimEndSnoc(s, r);
      r
    else s
  }

  /** `r` is a prefix of `s` that does not end with whitespace, cut before whitespace only. */
  predicate IsTrimEndOf(s: string, r: string) {
    && |r| <= |s| && r == s[..|r|]
    && AllSpace(s[|r|..])
    && (|r| == 0 || !IsSpace(r[|r| - 1]))
  }

  /** A trailing space cut after the trimmed rest. */
  lemma TrimEndSnoc(s: string, r: string)
    requires |s| > 0 && IsSpace(s[|s| - 1]) && IsTrimEndOf(s[..|s| - 1], r)
    ensures IsTrimEndOf(s, r)
  {
    assert s[|r|..] == s[..|s| - 1][|r|..] + [s[|s| - 1]];
  }

  /** `String.prototype.trim`: the middle slice of `s` left after whitespace is removed at both ends. */
  function Trim(s: string): (r: string)
    ensures IsTrimOf(s, |s| - |TrimStart(s)|, r)
  {
    var t := TrimStart(s);
    var r := TrimEnd(t);
    TrimCompose(s, t, r);
    r
  }

  /** `r` is the slice of `s` from `i` on, with only whitespace around it and none at its ends. */
  predicate IsTrimOf(s: string, i: int, r: string) {
    && 0 <= i && i + |r| <= |s| && r == s[i..i + |r|]
    && AllSpace(s[..i]) && AllSpace(s[i + |r|..])
    && (|r| == 0 || (!IsSpace(r[0]) && !IsSpace(r[|r| - 1])))
  }

  /** Removing a space-only prefix and then a space-only suffix leaves a middle slice, whose ends
      are not spaces when neither cut stopped at a space. */
  lemma TrimCompose(s: string, t: string, r: string)
    requires |t| <= |s| && t == s[|s| - |t|..] && AllSpace(s[..|s| - |t|])
    requires |t| == 0 || !IsSpace(t[0])
    requires |r| <= |t| && r == t[..|r|] && AllSpace(t[|r|..])
    requires |r| == 0 || !IsSpace(r[|r| - 1])
    ensures IsTrimOf(s, |s| - |t|, r)
  {
    assert s[|s| - |t| + |r|..] == t[|r|..];
    if |r| > 0 {
      assert r[0] == t[0];
    }
  }

  /** Whitespace only trims to nothing. */
  lemma {:induction false} TrimStartOfSpace(s: string)
    requires AllSpace(s)
    ensures TrimStart(s) == "" && Trim(s) == ""
    decreases |s|
  {
    if |s| > 0 {
      TrimStartOfSpace(s[1..]);
    }
  }

  /** No whitespace at either end. */
  predicate IsTrimmed(s: string) {
    |s| == 0 || (!IsSpace(s[0]) && !IsSpace(s[|s| - 1]))
  }

  lemma TrimOfTrimmed(s: string)
    requires IsTrimmed(s)
    ensures Trim(s) == s
  {
  }

  /** A string that starts with a non-whitespace character is not blank. */
  lemma TrimNotBlank(s: string)
    requires |s| > 0 && !IsSpace(s[0])
    ensures Trim(s) != ""
  {
    TrimStartNonSpace(s);
  }

  /** `trimStart` leaves a string that starts with a non-whitespace character alone. */
  lemma TrimStartNonSpace(s: string)
    requires |s| > 0 && !IsSpace(s[0])
    ensures TrimStart(s) == s
  {
  }

  /** Whitespace around a string with non-blank ends is exactly what `trim` takes away. */
  lemma {:induction false} TrimPadded(a: string, s: string, b: string)
    requires AllSpace(a) && AllSpace(b)
    requires |s| > 0 && !IsSpace(s[0]) && !IsSpace(s[|s| - 1])
    ensures Trim(a + s + b) == s
  {
    TrimStartPaddedThree(a, s, b);
    TrimEndPadded(s, b);
    TrimOfParts(a + s + b, s + b, s);
  }

  lemma TrimStartPaddedThree(a: string, s: string, b: string)
    requires AllSpace(a) && |s| > 0 && !IsSpace(s[0])
    ensures TrimStart(a + s + b) == s + b
  {
    TrimStartPadded(a, s + b);
    AppendAssoc(a, s, b);
  }

  /** `trim` is `trimStart` followed by `trimEnd`. */
  lemma TrimOfParts(x: string, t: string, r: string)
    requires TrimStart(x) == t && TrimEnd(t) == r
    ensures Trim(x) == r
  {
  }

  lemma {:induction false} TrimStartPadded(a: string, s: string)
    requires AllSpace(a) && |s| > 0 && !IsSpace(s[0])
    ensures TrimStart(a + s) == s
    decreases |a|
  {
    if |a| > 0 {
      assert (a + s)[1..] == a[1..] + s;
      TrimStartPadded(a[1..], s);
    } else {
      assert a + s == s;
    }
  }

  lemma {:induction false} TrimEndPadded(s: string, b: string)
    requires AllSpace(b) && |s| > 0 && !IsSpace(s[|s| - 1])
    ensures TrimEnd(s + b) == s
    decreases |b|
  {
    if |b| > 0 {
      assert (s + b)[..|s + b| - 1] == s + b[..|b| - 1];
      TrimEndPadded(s, b[..|b| - 1]);
    } else {
      assert s + b == s;
    }
  }

  // ---------------------------------------------------------------------------
  // case mapping (Basic Latin and Latin-1 letters)

  predicate IsUpperLetter(c: char) {
    'A' <= c <= 'Z' || ('\U{00C0}' <= c <= '\U{00DE}' && c != '\U{00D7}')
  }

  predicate IsLowerLetter(c: char) {
    'a' <= c <= 'z' || ('\U{00E0}' <= c <= '\U{00FE}' && c != '\U{00F7}')
  }

  /** `toLowerCase` on one character. */
  function LowerChar(c: char): char {
    if IsUpperLetter(c) then (c as int + 32) as char
    else if c == '\U{0178}' then '\U{00FF}'
    else c
  }

  /** `toUpperCase` on one character. */
  function UpperChar(c: char): char {
    if IsLowerLetter(c) then (c as int - 32) as char
    else if c == '\U{00FF}' then '\U{0178}'
    else c
  }

  lemma CaseFacts(c: char)
    ensures LowerChar(LowerChar(c)) == LowerChar(c)
    ensures UpperChar(UpperChar(c)) == UpperChar(c)
    ensures LowerChar(UpperChar(c)) == LowerChar(c)
    ensures UpperChar(LowerChar(c)) == UpperChar(c)
    ensures IsSpace(LowerChar(c)) == IsSpace(c) && IsSpace(UpperChar(c)) == IsSpace(c)
    ensures IsSpace(c) ==> LowerChar(c) == c && UpperChar(c) == c
    ensures IsDigit(c) ==> LowerChar(c) == c && UpperChar(c) == c
  {
  }

  function Lower(s: string): (r: string)
    ensures |r| == |s| && forall i :: 0 <= i < |s| ==> r[i] == LowerChar(s[i])
  {
    seq(|s|, i requires 0 <= i < |s| => LowerChar(s[i]))
  }

  function Upper(s: string): (r: string)
    ensures |r| == |s| && forall i :: 0 <= i < |s| ==> r[i] == UpperChar(s[i])
  {
    seq(|s|, i requires 0 <= i < |s| => UpperChar(s[i]))
  }

  lemma LowerOfUpper(s: string)
    ensures Lower(Upper(s)) == Lower(s)
  {
    forall i | 0 <= i < |s| {
      CaseFacts(s[i]);
    }
  }

  /** One character of a title-cased string: upper-cased when it is not whitespace and starts a
      word, lower-cased otherwise. */
  function TitleChar(c: char, startsWord: bool): char {
    if !IsSpace(c) && startsWord then UpperChar(LowerChar(c)) else LowerChar(c)
  }

  /** `s.toLowerCase().replace(/(?:^|\s)\S/g, a => a.toUpperCase())`: a character is upper-cased when
      it is not whitespace and starts the string or follows whitespace; every other one is lower-cased. */
  function TitleCase(s: string): (r: string)
    ensures |r| == |s|
  {
    seq(|s|, i requires 0 <= i < |s| => TitleChar(s[i], i == 0 || IsSpace(s[i - 1])))
  }

  /** A string is title-cased when title-casing leaves it unchanged. */
  predicate IsTitleCased(s: string) {
    TitleCase(s) == s
  }

  /** Title-casing a character keeps it whitespace or not, and doing it twice changes nothing. */
  lemma TitleCharFacts(c: char, startsWord: bool)
    ensures IsSpace(TitleChar(c, startsWord)) == IsSpace(c)
    ensures TitleChar(TitleChar(c, startsWord), startsWord) == TitleChar(c, startsWord)
  {
    CaseFacts(c);
    CaseFacts(LowerChar(c));
  }

  lemma TitleCaseIsTitleCased(s: string)
    ensures IsTitleCased(TitleCase(s))
  {
    var t := TitleCase(s);
    forall i | 0 <= i < |s|
      ensures TitleCase(t)[i] == t[i]
    {
      TitleCaseTwiceAt(s, i);
    }
  }

  lemma TitleCaseTwiceAt(s: string, i: nat)
    requires i < |s|
    ensures TitleCase(TitleCase(s))[i] == TitleCase(s)[i]
  {
    var t := TitleCase(s);
    var starts := i == 0 || IsSpace(s[i - 1]);
    assert t[i] == TitleChar(s[i], starts);
    TitleCharFacts(s[i], starts);
    if i > 0 {
      var before := i - 1 == 0 || IsSpace(s[i - 2]);
      assert t[i - 1] == TitleChar(s[i - 1], before);
      TitleCharFacts(s[i - 1], before);
    }
    assert TitleCase(t)[i] == TitleChar(t[i], i == 0 || IsSpace(t[i - 1]));
  }

  // ---------------------------------------------------------------------------
  // search

  /** `s.includes(t)`. */
  predicate Contains(s: string, t: string)
    decreases |s|
  {
    t <= s || (|s| > 0 && Contains(s[1..], t))
  }

  /** `t` occurs in `s` starting at index `i`. */
  predicate OccursAt(s: string, t: string, i: int) {
    0 <= i && i + |t| <= |s| && s[i..i + |t|] == t
  }

  lemma {:induction false} ContainsIff(s: string, t: string)
    ensures Contains(s, t) <==> exists i :: OccursAt(s, t, i)
    decreases |s|
  {
    if Contains(s, t) {
      if t <= s {
        assert OccursAt(s, t, 0);
      } else {
        ContainsIff(s[1..], t);
        var i :| OccursAt(s[1..], t, i);
        OccursShift(s, t, i);
      }
    }
    if exists i :: OccursAt(s, t, i) {
      var i :| OccursAt(s, t, i);
      if i > 0 {
        OccursShift(s, t, i - 1);
        ContainsIff(s[1..], t);
      } else {
        assert s[..|t|] == t;
      }
    }
  }

  /** An occurrence in the tail is an occurrence one position further in the whole. */
  lemma OccursShift(s: string, t: string, i: int)
    requires |s| > 0 && 0 <= i
    ensures OccursAt(s[1..], t, i) <==> OccursAt(s, t, i + 1)
  {
    if i + 1 + |t| <= |s| {
      assert s[1..][i..i + |t|] == s[i + 1..i + 1 + |t|];
    }
  }

  lemma ContainsAt(s: string, t: string, i: nat)
    requires OccursAt(s, t, i)
    ensures Contains(s, t)
  {
    ContainsIff(s, t);
  }

  /** Containment is transitive: a substring of a substring is a substring. */
  lemma ContainsTransitive(s: string, t: string, u: string)
    requires Contains(s, t) && Contains(t, u)
    ensures Contains(s, u)
  {
    ContainsIff(s, t);
    ContainsIff(t, u);
    var i :| OccursAt(s, t, i);
    var j :| OccursAt(t, u, j);
    forall k | 0 <= k < |u|
      ensures s[i + j + k] == u[k]
    {
      assert u[k] == t[j + k] == s[i..i + |t|][j + k];
    }
    assert s[i + j..i + j + |u|] == u;
    assert OccursAt(s, u, i + j);
    ContainsIff(s, u);
  }

  lemma ContainsEmpty(s: string)
    ensures Contains(s, "")
  {
  }

  /** Some element of `terms` occurs in `s`: a regex alternation of literal words. */
  predicate ContainsAny(s: string, terms: seq<string>) {
    exists i :: 0 <= i < |terms| && Contains(s, terms[i])
  }

  /** Some element of `prefixes` starts `s`. */
  predicate StartsWithAny(s: string, prefixes: seq<string>) {
    exists i :: 0 <= i < |prefixes| && prefixes[i] <= s
  }

  /** Length of the longest prefix of `s` free of the characters in `stops`. */
  function Span(s: string, stops: set<char>): (n: nat)
    ensures n <= |s|
    ensures forall i :: 0 <= i < n ==> s[i] !in stops
    ensures n < |s| ==> s[n] in stops
  {
    if |s| == 0 || s[0] in stops then 0 else 1 + Span(s[1..], stops)
  }

  /** The span of a stop-free prefix ends where the stop-free text ends. */
  lemma {:induction false} SpanUpTo(a: string, b: string, stops: set<char>)
    requires Avoids(a, stops) && (|b| == 0 || b[0] in stops)
    ensures Span(a + b, stops) == |a|
    decreases |a|
  {
    if |a| > 0 {
      assert (a + b)[1..] == a[1..] + b;
      SpanUpTo(a[1..], b, stops);
    } else {
      assert a + b == b;
    }
  }

  /** The characters of `s` that satisfy `keep`, in order: a global `replace` of a character class by `''`. */
  function Keep(s: string, keep: char -> bool): (r: string)
    ensures |r| <= |s|
    ensures forall i :: 0 <= i < |r| ==> keep(r[i])
    ensures forall i :: 0 <= i < |s| && keep(s[i]) ==> s[i] in r
    ensures forall i :: 0 <= i < |r| ==> r[i] in s
  {
    if |s| == 0 then ""
    else if keep(s[0]) then [s[0]] + Keep(s[1..], keep)
    else Keep(s[1..], keep)
  }

  lemma {:induction false} KeepAll(s: string, keep: char -> bool)
    requires forall i :: 0 <= i < |s| ==> keep(s[i])
    ensures Keep(s, keep) == s
    decreases |s|
  {
    if |s| > 0 {
      KeepAll(s[1..], keep);
    }
  }

  /** Keeping characters of a concatenation keeps them from each part. */
  lemma {:induction false} KeepAppend(a: string, b: string, keep: char -> bool)
    ensures Keep(a + b, keep) == Keep(a, keep) + Keep(b, keep)
    decreases |a|
  {
    if |a| > 0 {
      KeepAppend(a[1..], b, keep);
      assert (a + b)[0] == a[0] && (a + b)[1..] == a[1..] + b;
    } else {
      assert a + b == b;
    }
  }

  // ---------------------------------------------------------------------------
  // split and join

  predicate Avoids(s: string, seps: set<char>) {
    forall i :: 0 <= i < |s| ==> s[i] !in seps
  }

  /** `s.split(sep)` for a one-character separator, or for a character class `/[..]/`:
      the pieces between separators, empty ones included. */
  function Split(s: string, seps: set<char>): (r: seq<string>)
    ensures |r| >= 1
    ensures forall i :: 0 <= i < |r| ==> Avoids(r[i], seps)
  {
    if |s| == 0 then [""]
    else
      var rest := Split(s[1..], seps);
      if s[0] in seps then [""] + rest else [[s[0]] + rest[0]] + rest[1..]
  }

  /** `parts.join(sep)`. */
  function Join(parts: seq<string>, sep: string): string {
    if |parts| == 0 then ""
    else if |parts| == 1 then parts[0]
    else parts[0] + sep + Join(parts[1..], sep)
  }

  /** Splitting takes the text up to the first separator, then splits the rest. */
  lemma {:induction false} SplitAtSpan(s: string, seps: set<char>)
    ensures var k := Span(s, seps);
      Split(s, seps) == [s[..k]] + (if k == |s| then [] else Split(s[k + 1..], seps))
    decreases |s|
  {
    if |s| > 0 && s[0] !in seps {
      SplitAtSpan(s[1..], seps);
      var k := Span(s[1..], seps);
      assert [s[0]] + s[1..][..k] == s[..k + 1];
      if k < |s[1..]| {
        assert s[1..][k + 1..] == s[k + 2..];
      }
    }
  }

  /** The pieces of a string that avoids some characters avoid them too. */
  /** A separator-free piece followed by a separator is split off as the first piece. */
  lemma SplitCut(p: string, rest: string, seps: set<char>)
    requires Avoids(p, seps) && |rest| > 0 && rest[0] in seps
    ensures Split(p + rest, seps) == [p] + Split(rest[1..], seps)
  {
    SplitAtSpan(p + rest, seps);
    SpanUpTo(p, rest, seps);
    assert (p + rest)[..|p|] == p && (p + rest)[|p| + 1..] == rest[1..];
  }

  /** A separator-free text is a single piece. */
  lemma SplitWhole(p: string, seps: set<char>)
    requires Avoids(p, seps)
    ensures Split(p, seps) == [p]
  {
    SplitAtSpan(p, seps);
    SpanUpTo(p, "", seps);
    assert p + "" == p;
  }

  lemma {:induction false} SplitAvoids(s: string, seps: set<char>, other: set<char>)
    requires Avoids(s, other)
    ensures forall i :: 0 <= i < |Split(s, seps)| ==> Avoids(Split(s, seps)[i], other)
    decreases |s|
  {
    if |s| > 0 {
      SplitAvoids(s[1..], seps, other);
    }
  }

  /** A string holding a separator splits into at least two pieces. */
  lemma {:induction false} SplitAtLeastTwo(s: string, seps: set<char>)
    requires !Avoids(s, seps)
    ensures |Split(s, seps)| >= 2
    decreases |s|
  {
    if s[0] !in seps {
      assert !Avoids(s[1..], seps) by {
        var i :| 0 <= i < |s| && s[i] in seps;
        assert s[1..][i - 1] == s[i];
      }
      SplitAtLeastTwo(s[1..], seps);
    }
  }

  /** `s.includes(c)` for a one-character string: some character of `s` is `c`. */
  lemma ContainsChar(s: string, c: char)
    ensures Contains(s, [c]) <==> !Avoids(s, {c})
  {
    ContainsIff(s, [c]);
    if Contains(s, [c]) {
      var i :| OccursAt(s, [c], i);
      assert s[i] == s[i..i + 1][0];
    }
    if !Avoids(s, {c}) {
      var i :| 0 <= i < |s| && s[i] in {c};
      assert s[i..i + 1] == [c];
      assert OccursAt(s, [c], i);
    }
  }

  /** Joining pieces that avoid some characters with a separator that avoids them avoids them too. */
  lemma {:induction false} JoinAvoids(parts: seq<string>, sep: string, other: set<char>)
    requires Avoids(sep, other)
    requires forall i :: 0 <= i < |parts| ==> Avoids(parts[i], other)
    ensures Avoids(Join(parts, sep), other)
    decreases |parts|
  {
    if |parts| > 1 {
      JoinAvoids(parts[1..], sep, other);
    }
  }

  /** Joining the pieces with the separator gives back the original text. */
  lemma {:induction false} JoinSplit(s: string, sep: char)
    ensures Join(Split(s, {sep}), [sep]) == s
    decreases |s|
  {
    if |s| > 0 {
      JoinSplit(s[1..], sep);
      var rest := Split(s[1..], {sep});
      if s[0] != sep {
        if |rest| > 1 {
          assert [[s[0]] + rest[0]] + rest[1..] == [[s[0]] + rest[0]] + rest[1..];
          assert Join(rest, [sep]) == rest[0] + [sep] + Join(rest[1..], [sep]);
        }
      }
    }
  }

  /** Splitting joined pieces that do not contain the separator gives back the pieces. */
  lemma {:induction false} SplitJoin(parts: seq<string>, sep: char)
    requires |parts| >= 1
    requires forall i :: 0 <= i < |parts| ==> Avoids(parts[i], {sep})
    ensures Split(Join(parts, [sep]), {sep}) == parts
    decreases |parts|
  {
    if |parts| == 1 {
      SplitPiece(parts[0], sep, "");
      assert parts[0] + "" == parts[0];
    } else {
      SplitJoin(parts[1..], sep);
      var tail := Join(parts[1..], [sep]);
      assert Join(parts, [sep]) == parts[0] + ([sep] + tail);
      SplitPiece(parts[0], sep, [sep] + tail);
      assert ([sep] + tail)[1..] == tail;
    }
  }

  /** A separator-free piece in front of text extends that text's first piece. */
  lemma {:induction false} SplitPiece(p: string, sep: char, rest: string)
    requires Avoids(p, {sep})
    ensures |rest| == 0 ==> Split(p + rest, {sep}) == [p]
    ensures |rest| > 0 && rest[0] == sep ==> Split(p + rest, {sep}) == [p] + Split(rest[1..], {sep})
    decreases |p|
  {
    if |p| > 0 {
      assert (p + rest)[1..] == p[1..] + rest;
      SplitPiece(p[1..], sep, rest);
      assert [p[0]] + p[1..] == p;
    } else {
      assert p + rest == rest;
    }
  }

  /** `s.split(/\s+/)`: the pieces between runs of whitespace, with an empty piece for
      leading or trailing whitespace. */
  function SplitSpaces(s: string): (r: seq<string>)
    ensures |r| >= 1
    decreases |s|
  {
    if |s| == 0 then [""]
    else if IsSpace(s[0]) then [""] + SplitSpaces(TrimStart(s[1..]))
    else
      var rest := SplitSpaces(s[1..]);
      [[s[0]] + rest[0]] + rest[1..]
  }

  predicate IsWord(w: string) {
    |w| > 0 && forall i :: 0 <= i < |w| ==> !IsSpace(w[i])
  }

  /** Splitting single-space-joined words on whitespace runs gives back the words. */
  lemma {:induction false} SplitSpacesJoin(words: seq<string>)
    requires |words| >= 1
    requires forall i :: 0 <= i < |words| ==> IsWord(words[i])
    ensures SplitSpaces(Join(words, " ")) == words
    decreases |words|
  {
    if |words| == 1 {
      SplitSpacesWord(words[0], "");
      assert words[0] + "" == words[0];
    } else {
      SplitSpacesJoin(words[1..]);
      var tail := Join(words[1..], " ");
      assert Join(words, " ") == words[0] + (" " + tail);
      SplitSpacesWord(words[0], " " + tail);
      assert (" " + tail)[1..] == tail;
      assert |tail| > 0 && !IsSpace(tail[0]) by {
        JoinStartsWithWord(words[1..]);
      }
    }
  }

  /** A join starts with the first piece. */
  lemma JoinStartsWith(parts: seq<string>, sep: string)
    requires |parts| >= 1
    ensures parts[0] <= Join(parts, sep)
  {
  }

  lemma {:induction false} JoinStartsWithWord(words: seq<string>)
    requires |words| >= 1 && IsWord(words[0])
    ensures |Join(words, " ")| > 0 && Join(words, " ")[0] == words[0][0]
  {
  }

  lemma {:induction false} SplitSpacesWord(w: string, rest: string)
    requires forall i :: 0 <= i < |w| ==> !IsSpace(w[i])
    requires |w| > 0
    ensures |rest| == 0 ==> SplitSpaces(w + rest) == [w]
    ensures |rest| >= 2 && rest[0] == ' ' && !IsSpace(rest[1]) ==> SplitSpaces(w + rest) == [w] + SplitSpaces(rest[1..])
    decreases |w|
  {
    assert (w + rest)[1..] == w[1..] + rest;
    if |w| > 1 {
      SplitSpacesWord(w[1..], rest);
      assert [w[0]] + w[1..] == w;
    } else {
      assert w[1..] + rest == rest;
      assert [w[0]] + "" == w;
      if |rest| >= 2 && rest[0] == ' ' && !IsSpace(rest[1]) {
        assert TrimStart(rest[1..]) == rest[1..];
      }
    }
  }
}
