/** ASCII text primitives shared by both resume parsers. Each function stands
    for one Python built-in (str.lower, str.strip, str.split, str.splitlines,
    str.title, `sub in s`) or for one building block of the regular
    expressions the parsers use (`\b`, a literal pattern, an unescaped `.`),
    restricted to ASCII characters. */
module Text {

  // ----- Characters -----

  /** Python's str.isspace on ASCII: space, \t \n \v \f \r and the
      separators 0x1C..0x1F. */
  predicate IsSpace(c: char) {
    c == ' ' || ('\t' <= c <= '\r') || ('\U{1C}' <= c <= '\U{1F}')
  }

  predicate IsUpper(c: char) { 'A' <= c <= 'Z' }
  predicate IsLower(c: char) { 'a' <= c <= 'z' }
  predicate IsLetter(c: char) { IsUpper(c) || IsLower(c) }
  predicate IsDigit(c: char) { '0' <= c <= '9' }

  /** The regular-expression class `\w` on ASCII: letters, digits and '_'. */
  predicate IsWordChar(c: char) { IsLetter(c) || IsDigit(c) || c == '_' }

  function LowerChar(c: char): (r: char)
    ensures !IsUpper(r) && (IsLower(r) <==> IsLetter(c))
    ensures IsWordChar(r) == IsWordChar(c) && IsSpace(r) == IsSpace(c)
    ensures !IsUpper(c) ==> r == c
  {
    if IsUpper(c) then (c as int + 32) as char else c
  }

  function UpperChar(c: char): (r: char)
    ensures !IsLower(r) && (IsUpper(r) <==> IsLetter(c))
    ensures IsWordChar(r) == IsWordChar(c) && IsSpace(r) == IsSpace(c)
    ensures !IsLower(c) ==> r == c
  {
    if IsLower(c) then (c as int - 32) as char else c
  }

  /** str.lower() on ASCII. */
  function Lower(s: string): (r: string)
    ensures |r| == |s|
    ensures forall i :: 0 <= i < |s| ==> r[i] == LowerChar(s[i])
  {
    seq(|s|, i requires 0 <= i < |s| => LowerChar(s[i]))
  }

  /** Lower-casing twice is lower-casing once. */
  lemma LowerIdempotent(s: string)
    ensures Lower(Lower(s)) == Lower(s)
  {
  }

  /** A string without upper-case letters is its own lower-case form. */
  lemma LowerOfLower(s: string)
    requires forall i :: 0 <= i < |s| ==> !IsUpper(s[i])
    ensures Lower(s) == s
  {
  }

  // ----- Whitespace -----

  /** `not s.strip()`: every character is whitespace. */
  predicate IsBlank(s: string) {
    forall i :: 0 <= i < |s| ==> IsSpace(s[i])
  }

  /** `bool(s.strip())`, the test Python writes as `if line.strip()`. */
  predicate NotBlank(s: string) {
    !IsBlank(s)
  }

  /** str.lstrip(): the suffix left after the leading whitespace. */
  function TrimStart(s: string): (r: string)
    ensures |r| <= |s| && r == s[|s| - |r|..]
    ensures forall k :: 0 <= k < |s| - |r| ==> IsSpace(s[k])
    ensures r == [] || !IsSpace(r[0])
  {
    if s != [] && IsSpace(s[0]) then
      var r := TrimStart(s[1..]);
      assert s[1..][|s| - 1 - |r|..] == s[|s| - |r|..];
      assert forall k :: 1 <= k < |s| - |r| ==> s[k] == s[1..][k - 1];
      r
    else s
  }

  /** str.rstrip(): the prefix left before the trailing whitespace. */
  function TrimEnd(s: string): (r: string)
    ensures |r| <= |s| && r == s[..|r|]
    ensures forall k :: |r| <= k < |s| ==> IsSpace(s[k])
    ensures r == [] || !IsSpace(r[|r| - 1])
  {
    if s != [] && IsSpace(s[|s| - 1]) then
      var r := TrimEnd(s[..|s| - 1]);
      assert s[..|s| - 1][..|r|] == s[..|r|];
      assert forall k :: |r| <= k < |s| - 1 ==> s[k] == s[..|s| - 1][k];
      r
    else s
  }

  /** str.strip(): the slice of `s` between its leading and its trailing
      whitespace. */
  function Strip(s: string): (r: string)
    ensures r == [] <==> IsBlank(s)
    ensures r != [] ==> !IsSpace(r[0]) && !IsSpace(r[|r| - 1])
  {
    StripBlank(s);
    StripEnds(s);
    TrimEnd(TrimStart(s))
  }

  /** Stripping leaves no whitespace at either end, and leaves a string
      without whitespace at its ends as it is. */
  lemma StripEnds(s: string)
    ensures TrimEnd(TrimStart(s)) != [] ==>
      !IsSpace(TrimEnd(TrimStart(s))[0]) && !IsSpace(TrimEnd(TrimStart(s))[|TrimEnd(TrimStart(s))| - 1])
    ensures (s == [] || (!IsSpace(s[0]) && !IsSpace(s[|s| - 1]))) ==> TrimEnd(TrimStart(s)) == s
  {
    var t := TrimStart(s);
    var r := TrimEnd(t);
    if r != [] {
      assert r[0] == t[0];
    }
    if s != [] && !IsSpace(s[0]) {
      assert t == s;
    }
  }

  /** The stripped text is a substring of the original. */
  lemma StripIsSubstring(s: string)
    ensures IsSubstring(Strip(s), s)
  {
    StripIsSlice(s);
  }

  lemma StripIsSlice(s: string)
    ensures IsSubstring(TrimEnd(TrimStart(s)), s)
  {
    var t := TrimStart(s);
    var r := TrimEnd(t);
    PrefixOfSuffix(s, |s| - |t|, |r|);
  }

  /** A prefix of a suffix of s occurs in s where the suffix starts. */
  lemma PrefixOfSuffix(s: string, a: nat, n: nat)
    requires a + n <= |s|
    ensures IsSubstring(s[a..][..n], s)
  {
    assert s[a..][..n] == s[a..a + n];
    assert OccursAt(s[a..][..n], s, a);
  }

  /** Only a blank string strips to nothing. */
  lemma StripBlank(s: string)
    ensures TrimEnd(TrimStart(s)) == [] <==> IsBlank(s)
  {
    var t := TrimStart(s);
    assert TrimEnd(t) == [] ==> t == [];
  }

  // ----- Substrings -----

  /** A substring of a string free of some characters is free of them too. */
  lemma SubstringNoneOf(sub: string, s: string, chars: set<char>)
    requires IsSubstring(sub, s) && NoneOf(s, chars)
    ensures NoneOf(sub, chars)
  {
    var p :| 0 <= p <= |s| - |sub| && OccursAt(sub, s, p);
    forall k | 0 <= k < |sub| ensures sub[k] !in chars {
      assert sub[k] == s[p + k];
    }
  }

  /** Python's `sub in s` for strings. */
  predicate IsSubstring(sub: string, s: string) {
    exists i :: 0 <= i <= |s| - |sub| && OccursAt(sub, s, i)
  }

  /** `sub` occurs in `s` starting at position i. */
  predicate OccursAt(sub: string, s: string, i: int) {
    0 <= i <= |s| - |sub| && s[i..i + |sub|] == sub
  }

  /** s.startswith(prefix) */
  predicate StartsWith(s: string, prefix: string) {
    |prefix| <= |s| && s[..|prefix|] == prefix
  }

  /** s.endswith(c) for a one-character suffix. */
  predicate EndsWith(s: string, c: char) {
    |s| > 0 && s[|s| - 1] == c
  }

  /** No character of `s` is one of `chars`. */
  predicate NoneOf(s: string, chars: set<char>) {
    forall i :: 0 <= i < |s| ==> s[i] !in chars
  }

  lemma {:induction false} SubstringTransitive(a: string, b: string, c: string)
    requires IsSubstring(a, b) && IsSubstring(b, c)
    ensures IsSubstring(a, c)
  {
    var i :| 0 <= i <= |b| - |a| && OccursAt(a, b, i);
    var j :| 0 <= j <= |c| - |b| && OccursAt(b, c, j);
    assert b == c[j..j + |b|];
    assert a == b[i..i + |a|];
    forall k | 0 <= k < |a| ensures a[k] == c[j + i + k] {
      assert a[k] == b[i + k];
      assert b[i + k] == c[j + i + k];
    }
    assert c[j + i..j + i + |a|] == a;
    assert OccursAt(a, c, j + i);
  }

  // ----- Splitting and joining -----

  /** re.split on a character class, or str.split(sep) for a single
      separator: the pieces between separator characters, empty pieces
      included. The first piece is a prefix and the last piece a suffix of
      `s`; the last piece follows the last separator, or is all of `s`. */
  function SplitOn(s: string, seps: set<char>): (parts: seq<string>)
    ensures |parts| >= 1
  {
    if s == [] then [[]]
    else
      var rest := SplitOn(s[1..], seps);
      if s[0] in seps then [[]] + rest
      else [[s[0]] + rest[0]] + rest[1..]
  }

  /** No piece of a split holds a separator. */
  lemma {:induction false} SplitOnPiecesFree(s: string, seps: set<char>)
    ensures forall k :: 0 <= k < |SplitOn(s, seps)| ==> NoneOf(SplitOn(s, seps)[k], seps)
  {
    if s != [] {
      SplitOnPiecesFree(s[1..], seps);
      var rest := SplitOn(s[1..], seps);
      var parts := SplitOn(s, seps);
      forall k | 0 <= k < |parts| ensures NoneOf(parts[k], seps) {
        if s[0] in seps {
          if k > 0 {
            assert parts[k] == rest[k - 1];
          }
        } else if k == 0 {
          forall i | 0 <= i < |parts[0]| ensures parts[0][i] !in seps {
            if i > 0 {
              assert parts[0][i] == rest[0][i - 1];
            }
          }
        } else {
          assert parts[k] == rest[k];
        }
      }
    }
  }

  /** The first piece of a split is a prefix of the text. */
  lemma {:induction false} SplitOnFirstPrefix(s: string, seps: set<char>)
    ensures var p := SplitOn(s, seps)[0]; |p| <= |s| && s[..|p|] == p
  {
    if s != [] && s[0] !in seps {
      SplitOnFirstPrefix(s[1..], seps);
      var p := SplitOn(s[1..], seps)[0];
      assert [s[0]] + p == s[..1 + |p|];
    }
  }

  /** Every piece of a split occurs in the text. */
  lemma {:induction false} SplitOnPiecesOccur(s: string, seps: set<char>)
    ensures forall k :: 0 <= k < |SplitOn(s, seps)| ==> IsSubstring(SplitOn(s, seps)[k], s)
  {
    var parts := SplitOn(s, seps);
    assert OccursAt([], s, 0);
    if s != [] {
      var rest := SplitOn(s[1..], seps);
      SplitOnPiecesOccur(s[1..], seps);
      assert OccursAt(s[1..], s, 1);
      forall k | 0 <= k < |parts| ensures IsSubstring(parts[k], s) {
        if s[0] in seps {
          if k > 0 {
            assert parts[k] == rest[k - 1];
            SubstringTransitive(rest[k - 1], s[1..], s);
          }
        } else if k == 0 {
          SplitOnFirstPrefix(s[1..], seps);
          assert parts[0] == s[..1 + |rest[0]|];
          assert OccursAt(parts[0], s, 0);
        } else {
          assert parts[k] == rest[k];
          SubstringTransitive(rest[k], s[1..], s);
        }
      }
    }
  }

  /** sep.join(parts) */
  function Join(parts: seq<string>, sep: char): (r: string)
  {
    if |parts| == 0 then []
    else if |parts| == 1 then parts[0]
    else parts[0] + [sep] + Join(parts[1..], sep)
  }

  /** Joining the pieces of a split with the one separator gives back the string. */
  lemma {:induction false} JoinSplitOn(s: string, sep: char)
    ensures Join(SplitOn(s, {sep}), sep) == s
  {
    if s != [] {
      var rest := SplitOn(s[1..], {sep});
      JoinSplitOn(s[1..], sep);
      if s[0] != sep && |rest| > 1 {
        var parts := SplitOn(s, {sep});
        assert parts[1..] == rest[1..];
      }
    }
  }

  /** Splitting a join of separator-free pieces gives back the pieces. */
  lemma {:induction false} SplitOnJoin(parts: seq<string>, sep: char)
    requires |parts| >= 1
    requires forall k :: 0 <= k < |parts| ==> NoneOf(parts[k], {sep})
    ensures SplitOn(Join(parts, sep), {sep}) == parts
  {
    if |parts| == 1 {
      SplitOnPiece(parts[0], [], sep);
      assert parts[0] + [] == parts[0];
    } else {
      var j := Join(parts[1..], sep);
      SplitOnJoin(parts[1..], sep);
      assert ([sep] + j)[1..] == j;
      assert SplitOn([sep] + j, {sep}) == [[]] + parts[1..];
      SplitOnPiece(parts[0], [sep] + j, sep);
      assert Join(parts, sep) == parts[0] + ([sep] + j);
      assert parts[0] + [] == parts[0];
      assert ([[]] + parts[1..])[1..] == parts[1..];
    }
  }

  /** A separator-free piece in front of `t` extends the first piece of t's split. */
  lemma {:induction false} SplitOnPiece(w: string, t: string, sep: char)
    requires NoneOf(w, {sep})
    ensures var p := SplitOn(t, {sep});
      SplitOn(w + t, {sep}) == [w + p[0]] + p[1..]
  {
    var p := SplitOn(t, {sep});
    if w != [] {
      assert NoneOf(w[1..], {sep});
      SplitOnPiece(w[1..], t, sep);
      assert (w + t)[1..] == w[1..] + t;
      var rest := SplitOn(w[1..] + t, {sep});
      assert rest == [w[1..] + p[0]] + p[1..];
      assert (w + t)[0] == w[0] && w[0] != sep;
      assert SplitOn(w + t, {sep}) == [[w[0]] + rest[0]] + rest[1..];
      assert rest[1..] == p[1..];
      assert [w[0]] + (w[1..] + p[0]) == w + p[0];
    } else {
      assert w + t == t;
      assert [] + p[0] == p[0];
      assert p == [p[0]] + p[1..];
    }
  }

  /** The last piece of a split is the suffix after the last separator, or
      the whole string when it has no separator. */
  lemma SplitOnLast(s: string, seps: set<char>)
    ensures var parts := SplitOn(s, seps);
      var last := parts[|parts| - 1];
      && |last| <= |s| && last == s[|s| - |last|..]
      && (|parts| == 1 ==> last == s)
      && (|parts| > 1 ==> |last| < |s| && s[|s| - |last| - 1] in seps)
      && (|last| == |s| ==> NoneOf(s, seps))
  {
    SplitOnLastSuffix(s, seps);
    SplitOnPiecesFree(s, seps);
  }

  /** The last piece is a suffix: all of the string when it is the only
      piece, preceded by a separator otherwise. */
  lemma {:induction false} SplitOnLastSuffix(s: string, seps: set<char>)
    ensures var parts := SplitOn(s, seps);
      var last := parts[|parts| - 1];
      && |last| <= |s| && last == s[|s| - |last|..]
      && (|parts| == 1 ==> last == s)
      && (|parts| > 1 ==> |last| < |s| && s[|s| - |last| - 1] in seps)
  {
    if s != [] {
      SplitOnLastSuffix(s[1..], seps);
      var rest := SplitOn(s[1..], seps);
      var last := rest[|rest| - 1];
      var parts := SplitOn(s, seps);
      if s[0] !in seps && |rest| == 1 {
        assert parts == [[s[0]] + rest[0]];
        assert s == [s[0]] + s[1..];
      } else {
        if s[0] in seps {
          assert parts == [[]] + rest;
        } else {
          assert parts == [[s[0]] + rest[0]] + rest[1..];
        }
        assert |parts| == |rest| + (if s[0] in seps then 1 else 0);
        assert parts[|parts| - 1] == last;
        assert s[|s| - |last|..] == s[1..][|s[1..]| - |last|..];
        if |rest| > 1 {
          assert s[|s| - |last| - 1] == s[1..][|s[1..]| - |last| - 1];
        }
      }
    }
  }

  /** str.splitlines() with '\n' as the only line break: no line for the
      empty text, and no empty last line after a final '\n'. */
  function SplitLines(text: string): (lines: seq<string>)
    ensures forall k :: 0 <= k < |lines| ==> NoneOf(lines[k], {'\n'})
  {
    if text == [] then []
    else
      var parts := SplitOn(text, {'\n'});
      SplitOnPiecesFree(text, {'\n'});
      if parts[|parts| - 1] == [] then parts[..|parts| - 1] else parts
  }

  lemma {:induction false} JoinAppendEmpty(parts: seq<string>, sep: char)
    requires |parts| >= 1
    ensures Join(parts + [[]], sep) == Join(parts, sep) + [sep]
  {
    if |parts| > 1 {
      JoinAppendEmpty(parts[1..], sep);
      assert (parts + [[]])[1..] == parts[1..] + [[]];
    }
  }

  /** The lines, joined by '\n', give back the text up to a final '\n'. */
  lemma SplitLinesJoin(text: string)
    ensures Join(SplitLines(text), '\n') + (if EndsWith(text, '\n') then "\n" else "") == text
  {
    if text != [] {
      var parts := SplitOn(text, {'\n'});
      JoinSplitOn(text, '\n');
      SplitOnLast(text, {'\n'});
      SplitOnPiecesFree(text, {'\n'});
      var last := parts[|parts| - 1];
      if last == [] {
        assert |parts| > 1;
        assert parts == parts[..|parts| - 1] + [[]];
        JoinAppendEmpty(parts[..|parts| - 1], '\n');
      } else {
        assert text[|text| - 1] == last[|last| - 1];
        assert !EndsWith(text, '\n');
        assert Join(SplitLines(text), '\n') + "" == Join(parts, '\n');
      }
    }
  }

  // ----- Words -----

  /** A piece produced by str.split(): non-empty and without whitespace. */
  predicate IsToken(w: string) {
    w != [] && forall k :: 0 <= k < |w| ==> !IsSpace(w[k])
  }

  /** Length of the run of non-whitespace characters at the start of `s`. */
  function NonSpaceRun(s: string): (n: nat)
    ensures n <= |s|
    ensures forall k :: 0 <= k < n ==> !IsSpace(s[k])
    ensures n < |s| ==> IsSpace(s[n])
  {
    if s == [] || IsSpace(s[0]) then 0 else 1 + NonSpaceRun(s[1..])
  }

  /** str.split() with no argument: the maximal runs of non-whitespace. */
  function Words(s: string): (ws: seq<string>)
    ensures forall k :: 0 <= k < |ws| ==> IsToken(ws[k])
    ensures ws == [] <==> IsBlank(s)
    decreases |s|
  {
    if s == [] then []
    else if IsSpace(s[0]) then
      var ws := Words(s[1..]);
      assert IsBlank(s[1..]) ==> IsBlank(s) by {
        if IsBlank(s[1..]) {
          forall i | 0 <= i < |s| ensures IsSpace(s[i]) {
            if i > 0 { assert s[i] == s[1..][i - 1]; }
          }
        }
      }
      ws
    else
      var n := NonSpaceRun(s);
      [s[..n]] + Words(s[n..])
  }

  /** ' '.join(words) */
  function JoinSpace(words: seq<string>): string {
    Join(words, ' ')
  }

  lemma {:induction false} RunOfToken(w: string, t: string)
    requires IsToken(w)
    requires t == [] || IsSpace(t[0])
    ensures NonSpaceRun(w + t) == |w|
  {
    if |w| > 1 {
      RunOfToken(w[1..], t);
      assert (w + t)[1..] == w[1..] + t;
    } else {
      assert (w + t)[1..] == t;
    }
  }

  /** Splitting words joined by single spaces gives back the words. */
  lemma {:induction false} WordsOfJoinSpace(ws: seq<string>)
    requires forall k :: 0 <= k < |ws| ==> IsToken(ws[k])
    ensures Words(JoinSpace(ws)) == ws
  {
    if |ws| == 1 {
      RunOfToken(ws[0], []);
      assert ws[0] + [] == ws[0];
    } else if |ws| > 1 {
      var rest := Join(ws[1..], ' ');
      var s := ws[0] + [' '] + rest;
      assert JoinSpace(ws) == s;
      RunOfToken(ws[0], [' '] + rest);
      assert s == ws[0] + ([' '] + rest);
      assert s[..|ws[0]|] == ws[0];
      assert s[|ws[0]|..] == [' '] + rest;
      assert ([' '] + rest)[1..] == rest;
      WordsOfJoinSpace(ws[1..]);
    }
  }

  /** A join of tokens starts with the first token's first character and
      ends with the last token's last character. */
  lemma {:induction false} JoinSpaceEnds(ws: seq<string>)
    requires |ws| >= 1
    requires forall k :: 0 <= k < |ws| ==> IsToken(ws[k])
    ensures var j := JoinSpace(ws);
      |j| >= 1 && !IsSpace(j[0]) && !IsSpace(j[|j| - 1])
  {
    assert IsToken(ws[0]);
    if |ws| > 1 {
      JoinSpaceEnds(ws[1..]);
    }
  }

  // ----- Title case -----

  /** Python's str.title() loop: a letter is upper-cased when the character
      before it is not a letter (or it is the first), lower-cased otherwise;
      `afterLetter` says whether a letter came just before `s`. */
  function TitleFrom(s: string, afterLetter: bool): (r: string)
    ensures |r| == |s|
    ensures forall i {:trigger r[i]} :: 0 <= i < |s| ==>
      r[i] == (if (if i == 0 then afterLetter else IsLetter(s[i - 1])) then LowerChar(s[i]) else UpperChar(s[i]))
    ensures forall i {:trigger r[i]} :: 0 <= i < |s| ==> IsSpace(r[i]) == IsSpace(s[i]) && IsLetter(r[i]) == IsLetter(s[i])
  {
    if s == [] then []
    else [if afterLetter then LowerChar(s[0]) else UpperChar(s[0])] + TitleFrom(s[1..], IsLetter(s[0]))
  }

  /** str.title() on ASCII: the first letter of every run of letters is
      upper-case, the others lower-case, every other character unchanged. */
  function Title(s: string): (r: string)
    ensures |r| == |s|
    ensures forall i {:trigger r[i]} :: 0 <= i < |s| ==> IsSpace(r[i]) == IsSpace(s[i]) && IsLetter(r[i]) == IsLetter(s[i])
    ensures forall i {:trigger r[i]} :: 0 <= i < |s| && IsLetter(s[i]) ==>
      (if i > 0 && IsLetter(s[i - 1]) then IsLower(r[i]) else IsUpper(r[i]))
  {
    TitleFrom(s, false)
  }

  /** A string whose letters already follow the title-case rule is left
      unchanged by title-casing. */
  lemma TitleOfTitled(s: string)
    requires |s| > 0 ==> !IsLower(s[0])
    requires forall i :: 0 <= i < |s| - 1 ==>
      if IsLetter(s[i]) then !IsUpper(s[i + 1]) else !IsLower(s[i + 1])
    ensures Title(s) == s
  {
    var r := TitleFrom(s, false);
    forall i | 0 <= i < |s| ensures r[i] == s[i] {
      if i > 0 {
        assert if IsLetter(s[i - 1]) then !IsUpper(s[i]) else !IsLower(s[i]);
      }
    }
  }

  /** Title-casing a title-cased string changes nothing. */
  lemma TitleIdempotent(s: string)
    ensures Title(Title(s)) == Title(s)
  {
    var t := Title(s);
    var tt := Title(t);
    forall i | 0 <= i < |s| ensures tt[i] == t[i] {
      assert i > 0 ==> IsLetter(t[i - 1]) == IsLetter(s[i - 1]);
    }
  }

  /** Title-casing a stripped, non-blank line gives a stripped, non-blank
      line. */
  lemma TitleOfStripped(line: string)
    requires line != [] && Strip(line) == line
    ensures var t := Title(line);
      t != [] && Strip(t) == t && !IsSpace(t[0]) && !IsSpace(t[|t| - 1])
  {
    var t := Title(line);
    assert !IsSpace(t[0]) && !IsSpace(t[|t| - 1]) by {
      assert !IsSpace(line[0]) && !IsSpace(line[|line| - 1]);
      assert IsSpace(t[0]) == IsSpace(line[0]);
      assert IsSpace(t[|t| - 1]) == IsSpace(line[|line| - 1]);
    }
  }

  // ----- Regular-expression building blocks -----

  /** The assertion `\b` at position p of s: exactly one of the characters
      around p is a word character. */
  predicate Boundary(s: string, p: nat)
    requires p <= |s|
  {
    (p > 0 && IsWordChar(s[p - 1])) != (p < |s| && IsWordChar(s[p]))
  }

  /** One text character against one pattern character; when the pattern
      is unescaped (`dotIsWild`), '.' matches any character but '\n'. */
  predicate CharMatches(c: char, p: char, dotIsWild: bool) {
    if dotIsWild && p == '.' then c != '\n' else c == p
  }

  /** The pattern matches the text starting at position i. */
  predicate MatchesAt(s: string, i: nat, pat: string, dotIsWild: bool) {
    i + |pat| <= |s| && forall k :: 0 <= k < |pat| ==> CharMatches(s[i + k], pat[k], dotIsWild)
  }

  /** `\b pat \b` matches at position i of s. */
  predicate WordAt(s: string, i: nat, pat: string, dotIsWild: bool) {
    MatchesAt(s, i, pat, dotIsWild) && Boundary(s, i) && Boundary(s, i + |pat|)
  }

  /** re.search(r'\b' + pat + r'\b', s) scanning from position i on: the
      pattern matches at i or at a later position. */
  predicate SearchFrom(s: string, pat: string, dotIsWild: bool, i: nat)
    decreases |s| - i
  {
    i <= |s| && (WordAt(s, i, pat, dotIsWild) || SearchFrom(s, pat, dotIsWild, i + 1))
  }

  /** re.search(r'\b' + pat + r'\b', s) finds a match. */
  predicate SearchWord(s: string, pat: string, dotIsWild: bool) {
    SearchFrom(s, pat, dotIsWild, 0)
  }

  /** A match at position i is found by any scan that starts at or before i. */
  lemma {:induction false} SearchFromAt(s: string, pat: string, dotIsWild: bool, from: nat, i: nat)
    requires from <= i <= |s| && WordAt(s, i, pat, dotIsWild)
    ensures SearchFrom(s, pat, dotIsWild, from)
    decreases i - from
  {
    if from < i {
      SearchFromAt(s, pat, dotIsWild, from + 1, i);
    }
  }

  /** A scan that succeeds points at a position where the pattern matches. */
  lemma {:induction false} SearchFromFound(s: string, pat: string, dotIsWild: bool, from: nat) returns (i: nat)
    requires SearchFrom(s, pat, dotIsWild, from)
    ensures from <= i <= |s| && WordAt(s, i, pat, dotIsWild)
    decreases |s| - from
  {
    if WordAt(s, from, pat, dotIsWild) {
      i := from;
    } else {
      i := SearchFromFound(s, pat, dotIsWild, from + 1);
    }
  }

  /** The search succeeds exactly when the pattern matches at some position. */
  lemma SearchWordIff(s: string, pat: string, dotIsWild: bool)
    ensures SearchWord(s, pat, dotIsWild) <==>
      exists i: nat :: i <= |s| && WordAt(s, i, pat, dotIsWild)
  {
    if SearchWord(s, pat, dotIsWild) {
      var i := SearchFromFound(s, pat, dotIsWild, 0);
    }
    if exists i: nat :: i <= |s| && WordAt(s, i, pat, dotIsWild) {
      var i: nat :| i <= |s| && WordAt(s, i, pat, dotIsWild);
      SearchFromAt(s, pat, dotIsWild, 0, i);
    }
  }

  /** Inside a run of word characters there is no word boundary, so a
      shorter non-empty pattern never matches as a whole word. */
  lemma NoWordInsideWord(s: string, pat: string, dotIsWild: bool)
    requires forall k :: 0 <= k < |s| ==> IsWordChar(s[k])
    requires 0 < |pat| < |s|
    ensures !SearchWord(s, pat, dotIsWild)
  {
    forall i: nat | i <= |s| ensures !WordAt(s, i, pat, dotIsWild) {
      if 0 < i < |s| {
        assert IsWordChar(s[i - 1]) && IsWordChar(s[i]);
      } else if i == 0 {
        assert IsWordChar(s[|pat| - 1]) && IsWordChar(s[|pat|]);
      }
    }
    SearchWordIff(s, pat, dotIsWild);
  }

  /** re.search(rf"\b{re.escape(kw)}\b", line, flags=re.IGNORECASE) finds
      a match: a whole-word, case-insensitive occurrence of kw. */
  predicate ContainsWord(line: string, kw: string) {
    SearchWord(Lower(line), Lower(kw), false)
  }

  /** Some keyword of `kws` occurs in `line` as a whole word. */
  predicate ContainsAnyWord(line: string, kws: seq<string>) {
    exists j :: 0 <= j < |kws| && ContainsWord(line, kws[j])
  }

  /** The case-insensitive search for `sub` anywhere in `text`, as
      re.search(sub, text, re.IGNORECASE) for a pattern without
      metacharacters. */
  predicate ContainsIgnoreCase(text: string, sub: string) {
    IsSubstring(Lower(sub), Lower(text))
  }

  // ----- Line lists -----

  /** [line.strip() for line in lines if keep(line)] */
  function KeepStripped(lines: seq<string>, keep: string -> bool): (r: seq<string>)
    ensures |r| <= |lines|
  {
    if lines == [] then []
    else
      KeepStripped(lines[..|lines| - 1], keep)
      + (if keep(lines[|lines| - 1]) then [Strip(lines[|lines| - 1])] else [])
  }

  /** Every kept entry is the stripped form of a line that passes `keep`, and
      every such line gives an entry. */
  lemma KeepStrippedMembers(lines: seq<string>, keep: string -> bool, e: string)
    ensures e in KeepStripped(lines, keep) <==>
      exists i :: 0 <= i < |lines| && keep(lines[i]) && Strip(lines[i]) == e
  {
    if e in KeepStripped(lines, keep) {
      var k :| 0 <= k < |KeepStripped(lines, keep)| && KeepStripped(lines, keep)[k] == e;
      var i := KeptSource(lines, keep, k);
    }
    if exists i :: 0 <= i < |lines| && keep(lines[i]) && Strip(lines[i]) == e {
      var i :| 0 <= i < |lines| && keep(lines[i]) && Strip(lines[i]) == e;
      KeptLine(lines, keep, i);
    }
  }

  /** No entry is kept exactly when no line passes `keep`. */
  lemma KeepStrippedEmpty(lines: seq<string>, keep: string -> bool)
    ensures KeepStripped(lines, keep) == [] <==> forall i :: 0 <= i < |lines| ==> !keep(lines[i])
  {
    if KeepStripped(lines, keep) != [] {
      var i := KeptSource(lines, keep, 0);
    } else {
      forall i | 0 <= i < |lines| ensures !keep(lines[i]) {
        KeepStrippedMembers(lines, keep, Strip(lines[i]));
      }
    }
  }

  /** What a line filter keeps: at most one entry per line, each the
      stripped form of a line that passes, and none exactly when no line
      passes. */
  lemma KeptEntries(lines: seq<string>, keep: string -> bool)
    ensures var r := KeepStripped(lines, keep);
      && |r| <= |lines|
      && (forall e :: e in r <==> exists i :: 0 <= i < |lines| && keep(lines[i]) && Strip(lines[i]) == e)
      && (r == [] <==> forall i :: 0 <= i < |lines| ==> !keep(lines[i]))
  {
    forall e ensures e in KeepStripped(lines, keep) <==>
      exists i :: 0 <= i < |lines| && keep(lines[i]) && Strip(lines[i]) == e
    {
      KeepStrippedMembers(lines, keep, e);
    }
    KeepStrippedEmpty(lines, keep);
  }

  /** A kept line that appears twice gives two entries: the filter does not
      remove repeats. */
  lemma KeepStrippedRepeats(line: string, keep: string -> bool)
    requires keep(line)
    ensures KeepStripped([line, line], keep) == [Strip(line), Strip(line)]
  {
    var one := [line];
    var two := [line, line];
    assert one[..0] == [];
    assert KeepStripped(one, keep) == KeepStripped([], keep) + [Strip(line)];
    assert two[..1] == one;
    assert KeepStripped(two, keep) == KeepStripped(one, keep) + [Strip(line)];
  }

  /** The line that the k-th kept entry comes from. */
  lemma {:induction false} KeptSource(lines: seq<string>, keep: string -> bool, k: nat) returns (i: nat)
    requires k < |KeepStripped(lines, keep)|
    ensures i < |lines| && keep(lines[i]) && Strip(lines[i]) == KeepStripped(lines, keep)[k]
  {
    var init := lines[..|lines| - 1];
    var r := KeepStripped(init, keep);
    var last := lines[|lines| - 1];
    assert KeepStripped(lines, keep) == r + (if keep(last) then [Strip(last)] else []);
    if k < |r| {
      i := KeptSource(init, keep, k);
      assert lines[i] == init[i];
      assert KeepStripped(lines, keep)[k] == r[k];
    } else {
      i := |lines| - 1;
      assert keep(last) && KeepStripped(lines, keep)[k] == Strip(last);
    }
  }

  /** A line that passes `keep` contributes its stripped form. */
  lemma {:induction false} KeptLine(lines: seq<string>, keep: string -> bool, i: nat)
    requires i < |lines| && keep(lines[i])
    ensures Strip(lines[i]) in KeepStripped(lines, keep)
  {
    var init := lines[..|lines| - 1];
    if i < |init| {
      assert init[i] == lines[i];
      KeptLine(init, keep, i);
    }
  }

  /** One more line of the list adds at most its own stripped form. */
  lemma KeepStrippedSnoc(lines: seq<string>, keep: string -> bool, i: nat)
    requires i < |lines|
    ensures KeepStripped(lines[..i + 1], keep) ==
      KeepStripped(lines[..i], keep) + (if keep(lines[i]) then [Strip(lines[i])] else [])
  {
    assert lines[..i + 1][..i] == lines[..i];
  }

  /** Keeping lines is done line by line: document order is preserved. */
  lemma {:induction false} KeepStrippedAppend(a: seq<string>, b: seq<string>, keep: string -> bool)
    ensures KeepStripped(a + b, keep) == KeepStripped(a, keep) + KeepStripped(b, keep)
  {
    if b == [] {
      assert a + b == a;
    } else {
      var b' := b[..|b| - 1];
      KeepStrippedAppend(a, b', keep);
      assert (a + b)[..|a + b| - 1] == a + b';
    }
  }

  /** [line.strip() for line in lines if line.strip()]: the non-blank lines,
      stripped. */
  function StrippedNonEmpty(lines: seq<string>): (r: seq<string>)
    ensures forall k :: 0 <= k < |r| ==> r[k] != [] && Strip(r[k]) == r[k]
  {
    var r := KeepStripped(lines, NotBlank);
    KeepStrippedNonBlank(lines, r);
    r
  }

  lemma KeepStrippedNonBlank(lines: seq<string>, r: seq<string>)
    requires r == KeepStripped(lines, NotBlank)
    ensures forall k :: 0 <= k < |r| ==> r[k] != [] && Strip(r[k]) == r[k]
  {
    forall k | 0 <= k < |r| ensures r[k] != [] && Strip(r[k]) == r[k] {
      var i := KeptSource(lines, NotBlank, k);
    }
  }
}
