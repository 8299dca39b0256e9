/** The older pipeline of example.py: the name, phone, section-scanning,
    degree-ranking, grammar-score and career-union heuristics. It shares the
    text primitives of the Text module with the resume parser but none of
    its rules: this module keeps example.py's own keywords, orders and
    results. */
module ExampleParser {
  import opened Wrappers
  import opened Text

  // ----- Phone -----

  /** The number of consecutive digits in s from position i. */
  function DigitRun(s: string, i: nat): (n: nat)
    requires i <= |s|
    ensures i + n <= |s|
    ensures forall k :: i <= k < i + n ==> IsDigit(s[k])
    ensures i + n == |s| || !IsDigit(s[i + n])
    decreases |s| - i
  {
    if i < |s| && IsDigit(s[i]) then 1 + DigitRun(s, i + 1) else 0
  }

  /** The shape the pattern `\+?[1-9][0-9]{7,14}` accepts: an optional '+',
      then 8 to 15 digits of which the first is not '0'. */
  predicate IsPhoneNumber(p: string) {
    var digits := if |p| > 0 && p[0] == '+' then p[1..] else p;
    8 <= |digits| <= 15 && '1' <= digits[0] <= '9'
    && forall k :: 0 <= k < |digits| ==> IsDigit(digits[k])
  }

  /** The length of the match of `\+?[1-9][0-9]{7,14}` that starts at
      position i, if there is one. The '+' is taken when present, and the
      repetition is greedy: the match stops at 15 digits or at the first
      character that is not a digit. */
  function PhoneAt(s: string, i: nat): (len: Option<nat>)
    requires i <= |s|
    ensures len.Some? ==> 8 <= len.value <= 16 && i + len.value <= |s|
  {
    var d := if i < |s| && s[i] == '+' then i + 1 else i;
    if d < |s| && '1' <= s[d] <= '9' && DigitRun(s, d + 1) >= 7 then
      var run := DigitRun(s, d + 1);
      Some(d + 1 + (if run < 14 then run else 14) - i)
    else
      None
  }

  /** What a match at i covers has the phone shape, and the greedy
      repetition leaves no digit it could still have taken. */
  lemma PhoneAtMatches(s: string, i: nat)
    requires i <= |s| && PhoneAt(s, i).Some?
    ensures var n := PhoneAt(s, i).value;
      && IsPhoneNumber(s[i..i + n])
      && (i + n == |s| || !IsDigit(s[i + n]) || n == (if s[i] == '+' then 16 else 15))
  {
    var n := PhoneAt(s, i).value;
    var d := if s[i] == '+' then i + 1 else i;
    var m := s[i..i + n];
    var digits := if |m| > 0 && m[0] == '+' then m[1..] else m;
    assert digits == s[d..i + n];
    forall k | 0 <= k < |digits| ensures IsDigit(digits[k]) {
      assert digits[k] == s[d + k];
    }
  }

  /** The position of the leftmost match at or after i, as re.findall
      reports its matches from left to right. */
  function PhoneFrom(s: string, i: nat): (j: Option<nat>)
    requires i <= |s|
    ensures j.None? ==> forall k :: i <= k <= |s| ==> PhoneAt(s, k).None?
    ensures j.Some? ==> i <= j.value <= |s| && PhoneAt(s, j.value).Some?
    ensures j.Some? ==> forall k :: i <= k < j.value ==> PhoneAt(s, k).None?
    decreases |s| - i
  {
    if PhoneAt(s, i).Some? then Some(i)
    else if i == |s| then None
    else PhoneFrom(s, i + 1)
  }

  /** extract_phone: the first match of the phone pattern in the text, or
      None when no position matches. */
  function ExtractPhone(text: string): (p: Option<string>)
    ensures p.None? <==> forall j :: 0 <= j <= |text| ==> PhoneAt(text, j).None?
    ensures p.Some? ==> IsPhoneNumber(p.value) && IsSubstring(p.value, text)
    ensures p.Some? ==> exists j :: FirstMatchAt(text, j, p.value)
  {
    match PhoneFrom(text, 0)
    case None => None
    case Some(j) =>
      var p := text[j..j + PhoneAt(text, j).value];
      PhoneAtMatches(text, j);
      assert OccursAt(p, text, j);
      assert FirstMatchAt(text, j, p);
      Some(p)
  }

  /** A text that is itself a phone number is found whole. */
  lemma PhoneOfNumber(p: string)
    requires IsPhoneNumber(p)
    ensures ExtractPhone(p) == Some(p)
  {
    PhoneAtWhole(p);
    assert PhoneFrom(p, 0) == Some(0);
    assert p[0..|p|] == p;
  }

  /** The match at the start of a phone number covers all of it. */
  lemma PhoneAtWhole(p: string)
    requires IsPhoneNumber(p)
    ensures PhoneAt(p, 0) == Some(|p|)
  {
    var d := if p[0] == '+' then 1 else 0;
    var digits := p[d..];
    forall k | d + 1 <= k < |p| ensures IsDigit(p[k]) {
      assert p[k] == digits[k - d];
    }
    DigitsRunToEnd(p, d + 1);
    assert '1' <= p[d] <= '9' by {
      assert p[d] == digits[0];
    }
  }

  /** The match at j is the leftmost one, and m is what it covers. */
  predicate FirstMatchAt(text: string, j: nat, m: string) {
    j <= |text| && PhoneAt(text, j).Some? && m == text[j..j + PhoneAt(text, j).value]
    && forall k :: 0 <= k < j ==> PhoneAt(text, k).None?
  }

  /** The n characters from i have the phone shape. */
  predicate PhoneShapedAt(s: string, i: nat, n: nat) {
    i + n <= |s| && IsPhoneNumber(s[i..i + n])
  }

  /** No phone-shaped piece of the text starts before j. */
  ghost predicate NoPhoneBefore(s: string, j: nat) {
    forall k: nat, n: nat :: k < j ==> !PhoneShapedAt(s, k, n)
  }

  /** Every phone-shaped piece of the text starts a match: the scan misses
      no occurrence of the pattern. */
  lemma PhoneAtComplete(s: string, i: nat, n: nat)
    requires i + n <= |s| && IsPhoneNumber(s[i..i + n])
    ensures PhoneAt(s, i).Some?
  {
    var m := s[i..i + n];
    var d := if m[0] == '+' then i + 1 else i;
    var digits := if m[0] == '+' then m[1..] else m;
    assert s[d] == digits[0];
    forall k | d + 1 <= k < d + 8 ensures IsDigit(s[k]) {
      assert s[k] == digits[k - d];
    }
    DigitRunAtLeast(s, d + 1, 7);
  }

  /** A run of n digits from i makes DigitRun at least n. */
  lemma {:induction false} DigitRunAtLeast(s: string, i: nat, n: nat)
    requires i + n <= |s|
    requires forall k :: i <= k < i + n ==> IsDigit(s[k])
    ensures DigitRun(s, i) >= n
    decreases n
  {
    if n > 0 {
      DigitRunAtLeast(s, i + 1, n - 1);
    }
  }

  /** Stated over the pattern itself: there is no phone number exactly when
      no piece of the text has the phone shape, and the one found starts
      before any other phone-shaped piece. */
  lemma ExtractPhoneLeftmost(text: string)
    ensures ExtractPhone(text).None? <==> forall i: nat, n: nat :: !PhoneShapedAt(text, i, n)
    ensures ExtractPhone(text).Some? ==>
      exists j: nat :: OccursAt(ExtractPhone(text).value, text, j) && NoPhoneBefore(text, j)
  {
    var p := ExtractPhone(text);
    if p.None? {
      NoMatchNoPhone(text, |text| + 1);
    } else {
      var j: nat :| FirstMatchAt(text, j, p.value);
      NoMatchNoPhone(text, j);
      assert OccursAt(p.value, text, j);
      assert PhoneShapedAt(text, j, |p.value|);
    }
  }

  /** Where no position before j starts a match, no phone-shaped piece
      starts there either. */
  lemma NoMatchNoPhone(text: string, j: nat)
    requires forall k :: 0 <= k < j && k <= |text| ==> PhoneAt(text, k).None?
    ensures NoPhoneBefore(text, j)
  {
    forall k: nat, n: nat | k < j ensures !PhoneShapedAt(text, k, n) {
      if PhoneShapedAt(text, k, n) {
        PhoneAtComplete(text, k, n);
      }
    }
  }

  /** In a run of digits that reaches the end, the run is the rest of the text. */
  lemma {:induction false} DigitsRunToEnd(s: string, i: nat)
    requires i <= |s|
    requires forall k :: i <= k < |s| ==> IsDigit(s[k])
    ensures DigitRun(s, i) == |s| - i
    decreases |s| - i
  {
    if i < |s| {
      DigitsRunToEnd(s, i + 1);
    }
  }

  // ----- Name -----

  /** The number of consecutive lower-case letters in s from position i. */
  function LowerRun(s: string, i: nat): (n: nat)
    requires i <= |s|
    ensures i + n <= |s|
    ensures forall k :: i <= k < i + n ==> IsLower(s[k])
    ensures i + n == |s| || !IsLower(s[i + n])
    decreases |s| - i
  {
    if i < |s| && IsLower(s[i]) then 1 + LowerRun(s, i + 1) else 0
  }

  /** re.match(r"^[A-Z][a-z]+ [A-Z][a-z]+", line): the first run of
      lower-case letters is maximal, since it must be followed by a space. */
  predicate StartsWithFullName(line: string) {
    |line| >= 1 && IsUpper(line[0])
    && var a := LowerRun(line, 1);
    a >= 1 && 3 + a < |line| && line[1 + a] == ' ' && IsUpper(line[2 + a]) && IsLower(line[3 + a])
  }

  /** All characters are lower-case letters. */
  predicate AllLower(s: string) {
    forall k :: 0 <= k < |s| ==> IsLower(s[k])
  }

  /** The pattern read declaratively: a capital, one or more lower-case
      letters, a space, a capital and a lower-case letter. */
  ghost predicate FullNamePattern(line: string) {
    exists a :: FullNameWith(line, a)
  }

  /** The pattern matches with a first name of 1 + a letters. */
  predicate FullNameWith(line: string, a: int) {
    1 <= a && 4 + a <= |line| && IsUpper(line[0]) && AllLower(line[1..1 + a])
    && line[1 + a] == ' ' && IsUpper(line[2 + a]) && IsLower(line[3 + a])
  }

  /** The greedy scan accepts exactly the lines the pattern describes. */
  lemma StartsWithFullNameIff(line: string)
    ensures StartsWithFullName(line) <==> FullNamePattern(line)
  {
    if StartsWithFullName(line) {
      var a := LowerRun(line, 1);
      assert FullNameWith(line, a);
    }
    if FullNamePattern(line) {
      var a :| FullNameWith(line, a);
      RunOfLowers(line, 1, a);
    }
  }

  /** A run of exactly n lower-case letters followed by a non-letter. */
  lemma {:induction false} RunOfLowers(s: string, i: nat, n: nat)
    requires i + n < |s| && AllLower(s[i..i + n]) && !IsLower(s[i + n])
    ensures LowerRun(s, i) == n
    decreases n
  {
    if n > 0 {
      assert IsLower(s[i..i + n][0]);
      assert s[i + 1..i + n] == s[i..i + n][1..];
      RunOfLowers(s, i + 1, n - 1);
    }
  }

  /** The text after the first ':' of a line: line.split(':', 1)[1]. */
  function AfterFirstColon(s: string): (r: string)
    requires ':' in s
    ensures |r| < |s| && s[|s| - |r| - 1] == ':' && r == s[|s| - |r|..]
    ensures forall k :: 0 <= k < |s| - |r| - 1 ==> s[k] != ':'
  {
    if s[0] == ':' then
      s[1..]
    else
      AfterFirstColon(s[1..])
  }

  /** A line labelled "Name" with a colon. */
  predicate IsNameField(line: string) {
    StartsWith(Lower(line), "name") && ':' in line
  }

  /** What extract_name returns for a line that settles it, if it does: the
      stripped text after the colon of a "Name:" line, or the whole line
      when it starts with two capitalised words. */
  function NameCandidate(line: string): (c: Option<string>)
    ensures c.Some? <==> HasCandidate(line)
  {
    if IsNameField(line) then Some(Strip(AfterFirstColon(line)))
    else if StartsWithFullName(line) then Some(Strip(line))
    else None
  }

  /** The line settles the name. */
  predicate HasCandidate(line: string) {
    IsNameField(line) || StartsWithFullName(line)
  }

  /** No line before index k settles the name. */
  predicate NoCandidateBefore(lines: seq<string>, k: nat)
    requires k <= |lines|
  {
    forall j :: 0 <= j < k ==> !HasCandidate(lines[j])
  }

  /** extract_name: over the stripped non-empty lines, the candidate of the
      first line that has one; without any, the first line; None for a text
      without non-blank lines. */
  method ExtractName(text: string) returns (name: Option<string>)
    ensures var lines := StrippedNonEmpty(SplitLines(text));
      name.None? <==> lines == []
    ensures var lines := StrippedNonEmpty(SplitLines(text));
      forall k :: 0 <= k < |lines| && HasCandidate(lines[k]) && NoCandidateBefore(lines, k) ==>
        name == NameCandidate(lines[k])
    ensures var lines := StrippedNonEmpty(SplitLines(text));
      lines != [] && NoCandidateBefore(lines, |lines|) ==> name == Some(lines[0])
  {
    name := NameOfLines(StrippedNonEmpty(SplitLines(text)));
  }

  /** The loop of extract_name over its list of stripped non-empty lines. */
  method NameOfLines(lines: seq<string>) returns (name: Option<string>)
    ensures name.None? <==> lines == []
    ensures forall k :: 0 <= k < |lines| && HasCandidate(lines[k]) && NoCandidateBefore(lines, k) ==>
      name == NameCandidate(lines[k])
    ensures lines != [] && NoCandidateBefore(lines, |lines|) ==> name == Some(lines[0])
  {
    for i := 0 to |lines|
      invariant NoCandidateBefore(lines, i)
    {
      var line := lines[i];
      if StartsWith(Lower(line), "name") {
        if ':' in line {
          name := Some(Strip(AfterFirstColon(line)));
          FirstCandidate(lines, i, name);
          return;
        }
      }
      if StartsWithFullName(line) {
        name := Some(Strip(line));
        FirstCandidate(lines, i, name);
        return;
      }
    }
    if |lines| > 0 {
      name := Some(lines[0]);
    } else {
      name := None;
    }
  }

  /** Returning the candidate of the first line that settles the name is
      returning the name extract_name promises. */
  lemma FirstCandidate(lines: seq<string>, i: nat, name: Option<string>)
    requires i < |lines| && HasCandidate(lines[i]) && NoCandidateBefore(lines, i)
    requires name == NameCandidate(lines[i])
    ensures name.None? <==> lines == []
    ensures forall k :: 0 <= k < |lines| && HasCandidate(lines[k]) && NoCandidateBefore(lines, k) ==>
      name == NameCandidate(lines[k])
    ensures lines != [] && NoCandidateBefore(lines, |lines|) ==> name == Some(lines[0])
  {
  }

  /** A "Name:" line yields the stripped text after its colon, whatever
      case the tag is written in. */
  lemma NameFieldCandidate(tag: string, rest: string)
    requires Lower(tag) == "name"
    ensures NameCandidate(tag + ":" + rest) == Some(Strip(rest))
  {
    var line := tag + ":" + rest;
    assert Lower(line)[..4] == Lower(tag);
    assert line[|tag|] == ':';
    assert ':' !in tag;
    var r := AfterFirstColon(line);
    var p := |line| - |r| - 1;
    assert forall q :: 0 <= q < |tag| ==> line[q] == tag[q];
    assert p == |tag|;
    assert r == rest;
  }

  // ----- Section scanning -----

  /** `header in line.lower()`: the line opens the section. */
  predicate IsHeader(line: string, header: string) {
    IsSubstring(header, Lower(line))
  }

  /** `not line.strip() or line.endswith(':')`: the line closes a section. */
  predicate IsStop(line: string) {
    IsBlank(line) || EndsWith(line, ':')
  }

  /** The index of the first header line at or after `from`. */
  function HeaderFrom(lines: seq<string>, header: string, from: nat): (h: Option<nat>)
    requires from <= |lines|
    ensures h.Some? ==> from <= h.value < |lines| && IsHeader(lines[h.value], header)
    ensures h.Some? ==> forall k :: from <= k < h.value ==> !IsHeader(lines[k], header)
    ensures h.None? ==> forall k :: from <= k < |lines| ==> !IsHeader(lines[k], header)
    decreases |lines| - from
  {
    if from == |lines| then None
    else if IsHeader(lines[from], header) then Some(from)
    else HeaderFrom(lines, header, from + 1)
  }

  /** The header search the scanners share: the index of the first line
      containing the header, by a loop that stops there. */
  method FindHeader(lines: seq<string>, header: string) returns (h: Option<nat>)
    ensures h == HeaderFrom(lines, header, 0)
  {
    for i := 0 to |lines|
      invariant forall k :: 0 <= k < i ==> !IsHeader(lines[k], header)
    {
      if IsHeader(lines[i], header) {
        HeaderAt(lines, header, 0, i);
        return Some(i);
      }
    }
    return None;
  }

  /** The first header line at or after `from` is at i. */
  lemma {:induction false} HeaderAt(lines: seq<string>, header: string, from: nat, i: nat)
    requires from <= i < |lines| && IsHeader(lines[i], header)
    requires forall k :: from <= k < i ==> !IsHeader(lines[k], header)
    ensures HeaderFrom(lines, header, from) == Some(i)
    decreases i - from
  {
    if from < i {
      HeaderAt(lines, header, from + 1, i);
    }
  }

  /** The number of lines from `from` on before the first closing line. */
  function BodyLength(lines: seq<string>, from: nat): (n: nat)
    requires from <= |lines|
    ensures from + n <= |lines|
    ensures forall k :: from <= k < from + n ==> !IsStop(lines[k])
    ensures from + n == |lines| || IsStop(lines[from + n])
    decreases |lines| - from
  {
    if from == |lines| || IsStop(lines[from]) then 0
    else 1 + BodyLength(lines, from + 1)
  }

  /** The lines of the section opened by the first header line: the lines
      after it, up to the first closing line or the end. No header, no
      section. */
  function Section(lines: seq<string>, header: string): (body: seq<string>)
  {
    match HeaderFrom(lines, header, 0)
    case None => []
    case Some(h) => lines[h + 1..h + 1 + BodyLength(lines, h + 1)]
  }

  /** The section is determined by the first header line i and the first
      closing line j after it: it is exactly the lines strictly between. */
  lemma SectionBetween(lines: seq<string>, header: string, i: nat, j: nat)
    requires i < j <= |lines|
    requires IsHeader(lines[i], header)
    requires forall k :: 0 <= k < i ==> !IsHeader(lines[k], header)
    requires forall k :: i < k < j ==> !IsStop(lines[k])
    requires j == |lines| || IsStop(lines[j])
    ensures Section(lines, header) == lines[i + 1..j]
  {
    HeaderAt(lines, header, 0, i);
    BodyEndsAt(lines, i + 1, j);
    assert Section(lines, header) == lines[i + 1..i + 1 + BodyLength(lines, i + 1)];
  }

  /** The body from `from` runs exactly to the first closing line j. */
  lemma {:induction false} BodyEndsAt(lines: seq<string>, from: nat, j: nat)
    requires from <= j <= |lines|
    requires forall k :: from <= k < j ==> !IsStop(lines[k])
    requires j == |lines| || IsStop(lines[j])
    ensures BodyLength(lines, from) == j - from
    decreases j - from
  {
    if from < j {
      BodyEndsAt(lines, from + 1, j);
    }
  }

  /** Without a header line there is no section. */
  lemma NoSection(lines: seq<string>, header: string)
    requires forall k :: 0 <= k < |lines| ==> !IsHeader(lines[k], header)
    ensures Section(lines, header) == []
  {
  }

  /** Every line of a section is non-blank and does not end in ':'. */
  lemma SectionLinesOpen(lines: seq<string>, header: string)
    ensures forall k :: 0 <= k < |Section(lines, header)| ==> !IsStop(Section(lines, header)[k])
  {
    match HeaderFrom(lines, header, 0)
    case None =>
    case Some(h) =>
      var body := lines[h + 1..h + 1 + BodyLength(lines, h + 1)];
      forall k | 0 <= k < |body| ensures !IsStop(body[k]) {
        assert body[k] == lines[h + 1 + k];
      }
  }

  /** The scanners' shared loop: find the first header line, then run
      through the following lines until a closing one, appending what
      `entries` makes of each line. */
  method ScanSection(lines: seq<string>, header: string, entries: string -> seq<string>)
    returns (out: seq<string>)
    ensures out == FlatMap(Section(lines, header), entries)
  {
    out := [];
    var h := FindHeader(lines, header);
    if h.Some? {
      var rest := lines[h.value + 1..];
      ghost var n := BodyLength(lines, h.value + 1);
      var j := 0;
      while j < |rest| && !IsStop(rest[j])
        invariant j <= n
        invariant out == FlatMap(rest[..j], entries)
      {
        out := out + entries(rest[j]);
        assert rest[..j + 1][..j] == rest[..j];
        j := j + 1;
      }
      SectionOpenedAt(lines, header, h.value, j);
      assert Section(lines, header) == rest[..j];
    } else {
      assert Section(lines, header) == [];
      assert FlatMap([], entries) == [];
    }
  }

  /** The section opened by header line h is the run of lines after h
      that ends at the first closing line. */
  lemma SectionOpenedAt(lines: seq<string>, header: string, h: nat, j: nat)
    requires HeaderFrom(lines, header, 0) == Some(h)
    requires h + 1 + j <= |lines| && j <= BodyLength(lines, h + 1)
    requires h + 1 + j == |lines| || IsStop(lines[h + 1 + j])
    ensures Section(lines, header) == lines[h + 1..][..j]
  {
    assert j == BodyLength(lines, h + 1);
  }

  /** The entries of every line, in order, concatenated. */
  function FlatMap(lines: seq<string>, entries: string -> seq<string>): (r: seq<string>)
  {
    if lines == [] then []
    else FlatMap(lines[..|lines| - 1], entries) + entries(lines[|lines| - 1])
  }

  /** An entry comes from some line. */
  lemma {:induction false} FlatMapMembers(lines: seq<string>, entries: string -> seq<string>, x: string)
    ensures x in FlatMap(lines, entries) <==> exists k :: 0 <= k < |lines| && x in entries(lines[k])
  {
    if lines != [] {
      var init := lines[..|lines| - 1];
      var last := lines[|lines| - 1];
      FlatMapMembers(init, entries, x);
      assert FlatMap(lines, entries) == FlatMap(init, entries) + entries(last);
      if x in FlatMap(init, entries) {
        var k :| 0 <= k < |init| && x in entries(init[k]);
        assert lines[k] == init[k];
      } else if x in entries(last) {
        assert x in entries(lines[|lines| - 1]);
      }
      if exists k :: 0 <= k < |lines| && x in entries(lines[k]) {
        var k :| 0 <= k < |lines| && x in entries(lines[k]);
        if k < |init| {
          assert init[k] == lines[k];
          assert x in FlatMap(init, entries);
        } else {
          assert x in entries(last);
        }
      }
    }
  }

  /** [f(line) for line in lines]. */
  function MapEach(lines: seq<string>, f: string -> string): (r: seq<string>)
    ensures |r| == |lines|
    ensures forall k :: 0 <= k < |lines| ==> r[k] == f(lines[k])
  {
    if lines == [] then []
    else MapEach(lines[..|lines| - 1], f) + [f(lines[|lines| - 1])]
  }

  /** One entry per line is a plain map over the lines. */
  lemma {:induction false} FlatMapOfSingletons(lines: seq<string>, entries: string -> seq<string>, f: string -> string)
    requires forall line :: entries(line) == [f(line)]
    ensures FlatMap(lines, entries) == MapEach(lines, f)
  {
    if lines != [] {
      FlatMapOfSingletons(lines[..|lines| - 1], entries, f);
    }
  }

  /** Keeping a stripped line when `keep` holds is the filter of
      KeepStripped. */
  lemma {:induction false} FlatMapKeep(lines: seq<string>, entries: string -> seq<string>, keep: string -> bool)
    requires forall line :: entries(line) == if keep(line) then [Strip(line)] else []
    ensures FlatMap(lines, entries) == KeepStripped(lines, keep)
  {
    if lines != [] {
      FlatMapKeep(lines[..|lines| - 1], entries, keep);
    }
  }

  // ----- Certifications -----

  const CertificationHeader: string := "certificat"

  /** extract_certifications: every line of the certification section,
      stripped, with no keyword filter. */
  method ExtractCertifications(text: string) returns (certs: seq<string>)
    ensures certs == MapEach(Section(SplitLines(text), CertificationHeader), Strip)
  {
    var lines := SplitLines(text);
    certs := ScanSection(lines, CertificationHeader, CertificationEntry);
    FlatMapOfSingletons(Section(lines, CertificationHeader), CertificationEntry, Strip);
  }

  /** What a certification line contributes: itself, stripped. */
  function CertificationEntry(line: string): seq<string> {
    [Strip(line)]
  }

  // ----- Experience -----

  const ExperienceHeader: string := "experience"

  /** ' '.join(line.split()[:8]).strip(): the first eight words of a line,
      single-spaced. */
  function Headline(line: string): (title: string)
  {
    var ws := Words(line);
    Strip(JoinSpace(ws[..if |ws| < 8 then |ws| else 8]))
  }

  /** A headline is the line's first min(8, n) words, single-spaced: it is
      non-empty for a non-blank line and splits back into exactly those
      words. */
  lemma HeadlineWords(line: string)
    ensures var ws := Words(line);
      Words(Headline(line)) == ws[..if |ws| < 8 then |ws| else 8]
    ensures !IsBlank(line) ==> Headline(line) != []
  {
    var ws := Words(line);
    var first := ws[..if |ws| < 8 then |ws| else 8];
    assert forall k :: 0 <= k < |first| ==> IsToken(first[k]);
    var j := JoinSpace(first);
    if |first| >= 1 {
      JoinSpaceEnds(first);
    } else {
      assert j == [];
    }
    assert Strip(j) == j;
    WordsOfJoinSpace(first);
  }

  /** extract_experience: the headline of every line of the experience
      section, in order. */
  method ExtractExperience(text: string) returns (titles: seq<string>)
    ensures titles == MapEach(Section(SplitLines(text), ExperienceHeader), Headline)
  {
    var lines := SplitLines(text);
    titles := ScanSection(lines, ExperienceHeader, ExperienceEntry);
    FlatMapOfSingletons(Section(lines, ExperienceHeader), ExperienceEntry, Headline);
  }

  /** What an experience line contributes: its headline. */
  function ExperienceEntry(line: string): seq<string> {
    [Headline(line)]
  }

  /** Every experience entry is a non-empty headline: the section holds no
      blank line. */
  lemma ExperienceEntriesNonEmpty(text: string)
    ensures var titles := MapEach(Section(SplitLines(text), ExperienceHeader), Headline);
      forall k :: 0 <= k < |titles| ==> titles[k] != []
  {
    var body := Section(SplitLines(text), ExperienceHeader);
    SectionLinesOpen(SplitLines(text), ExperienceHeader);
    forall k | 0 <= k < |body| ensures Headline(body[k]) != [] {
      HeadlineWords(body[k]);
    }
  }

  // ----- Skills -----

  const SkillsHeader: string := "skills"

  /** The separators of re.split(r'[,\u2022]', ...): a comma or a bullet. */
  const SkillSeparators: set<char> := {',', '\U{2022}'}

  /** What a skills line contributes: its comma- or bullet-separated
      pieces, stripped, empty ones dropped. */
  function SkillEntry(line: string): seq<string> {
    StrippedNonEmpty(SplitOn(line, SkillSeparators))
  }

  /** extract_skills: the tokens of every line of the skills section, in
      order. */
  method ExtractSkills(text: string) returns (skills: seq<string>)
    ensures skills == FlatMap(Section(SplitLines(text), SkillsHeader), SkillEntry)
  {
    skills := ScanSection(SplitLines(text), SkillsHeader, SkillEntry);
  }

  /** A token is non-empty, already stripped, holds no separator, and
      occurs in its line as written: its case is kept. */
  lemma SkillEntryTokens(line: string, x: string)
    requires x in SkillEntry(line)
    ensures x != [] && Strip(x) == x
    ensures NoneOf(x, SkillSeparators) && IsSubstring(x, line)
  {
    var entry := SkillEntry(line);
    var m :| 0 <= m < |entry| && entry[m] == x;
    assert x != [] && Strip(x) == x;
    var parts := SplitOn(line, SkillSeparators);
    KeepStrippedMembers(parts, NotBlank, x);
    var i :| 0 <= i < |parts| && NotBlank(parts[i]) && Strip(parts[i]) == x;
    SplitOnPiecesOccur(line, SkillSeparators);
    SplitOnPiecesFree(line, SkillSeparators);
    StrippedPiece(parts[i], line, SkillSeparators);
  }

  /** The stripped form of a separator-free piece of a line is itself
      separator-free and occurs in the line. */
  lemma StrippedPiece(piece: string, line: string, seps: set<char>)
    requires NoneOf(piece, seps) && IsSubstring(piece, line)
    ensures NoneOf(Strip(piece), seps) && IsSubstring(Strip(piece), line)
  {
    StripIsSubstring(piece);
    SubstringTransitive(Strip(piece), piece, line);
    SubstringNoneOf(Strip(piece), piece, seps);
  }

  /** Every skill comes from a line of the skills section and is one of
      its tokens. */
  lemma SkillsAreTokens(text: string, x: string)
    requires x in FlatMap(Section(SplitLines(text), SkillsHeader), SkillEntry)
    ensures x != [] && Strip(x) == x && NoneOf(x, SkillSeparators)
    ensures var body := Section(SplitLines(text), SkillsHeader);
      exists k :: 0 <= k < |body| && IsSubstring(x, body[k])
  {
    var body := Section(SplitLines(text), SkillsHeader);
    FlatMapMembers(body, SkillEntry, x);
    var k :| 0 <= k < |body| && x in SkillEntry(body[k]);
    SkillEntryTokens(body[k], x);
  }

  // ----- Education -----

  const EducationHeader: string := "education"

  /** The degree keywords of extract_education, used as unescaped
      patterns. */
  const ExampleDegreeKeywords: seq<string> :=
    ["ph.d", "phd", "doctor", "master", "mba", "msc", "ms", "bachelor", "bs", "ba", "associates", "associate"]

  /** re.search(r'\b' + keyword + r'\b', line.lower()) for some keyword;
      the '.' of "ph.d" is not escaped and matches any character. */
  predicate IsExampleDegreeLine(line: string) {
    exists j :: 0 <= j < |ExampleDegreeKeywords| && SearchWord(Lower(line), ExampleDegreeKeywords[j], true)
  }

  /** The unescaped '.' in "ph.d": any character between "ph" and "d"
      makes a degree line. */
  lemma PhdDotIsWild(c: char)
    requires c != '\n'
    ensures IsExampleDegreeLine(['p', 'h', c, 'd'])
  {
    var line := ['p', 'h', c, 'd'];
    var low := Lower(line);
    assert low[0] == 'p' && low[1] == 'h' && low[3] == 'd' && low[2] != '\n';
    assert WordAt(low, 0, ExampleDegreeKeywords[0], true);
    SearchFromAt(low, ExampleDegreeKeywords[0], true, 0, 0);
  }

  /** What an education line contributes: itself, stripped, when it names
      a degree. */
  function EducationEntry(line: string): seq<string> {
    if IsExampleDegreeLine(line) then [Strip(line)] else []
  }

  /** The seniority order of degree_rank, highest first. */
  const RankOrder: seq<string> :=
    ["phd", "doctor", "master", "mba", "msc", "ms", "bachelor", "ba", "bs", "associate"]

  /** degree_rank: the index of the first key of RankOrder contained in the
      lowered line, or 10 when none is. */
  function Rank(deg: string): (r: nat)
    ensures r <= |RankOrder|
    ensures r < |RankOrder| ==> IsSubstring(RankOrder[r], Lower(deg))
    ensures forall j :: 0 <= j < r ==> !IsSubstring(RankOrder[j], Lower(deg))
  {
    RankFrom(Lower(deg), 0)
  }

  /** The first key at or after index `from` contained in `low`. */
  function RankFrom(low: string, from: nat): (r: nat)
    requires from <= |RankOrder|
    ensures from <= r <= |RankOrder|
    ensures r < |RankOrder| ==> IsSubstring(RankOrder[r], low)
    ensures forall j :: from <= j < r ==> !IsSubstring(RankOrder[j], low)
    decreases |RankOrder| - from
  {
    if from == |RankOrder| then from
    else if IsSubstring(RankOrder[from], low) then from
    else RankFrom(low, from + 1)
  }

  /** degree_rank as written: a loop over the order with an early return. */
  method DegreeRank(deg: string) returns (idx: nat)
    ensures idx == Rank(deg)
  {
    var low := Lower(deg);
    for i := 0 to |RankOrder|
      invariant RankFrom(low, 0) == RankFrom(low, i)
    {
      if IsSubstring(RankOrder[i], low) {
        return i;
      }
    }
    return |RankOrder|;
  }

  /** extract_education: the stripped degree lines of the education
      section, stably sorted by degree rank. */
  method ExtractEducation(text: string) returns (degrees: seq<string>)
    ensures degrees == SortByKey(KeepStripped(Section(SplitLines(text), EducationHeader), IsExampleDegreeLine), Rank)
  {
    var lines := SplitLines(text);
    var found := ScanSection(lines, EducationHeader, EducationEntry);
    FlatMapKeep(Section(lines, EducationHeader), EducationEntry, IsExampleDegreeLine);
    degrees := SortByKey(found, Rank);
  }

  // ----- Stable sorting by a key -----

  /** Keys never decrease along the sequence. */
  predicate KeySorted(s: seq<string>, key: string -> nat) {
    forall i, j :: 0 <= i < j < |s| ==> key(s[i]) <= key(s[j])
  }

  /** The entries whose key is k, in their order. */
  function WithKey(s: seq<string>, key: string -> nat, k: nat): seq<string> {
    if s == [] then []
    else WithKey(s[..|s| - 1], key, k) + (if key(s[|s| - 1]) == k then [s[|s| - 1]] else [])
  }

  /** Puts x after every entry whose key is at most key(x), counting from
      the end: in a key-sorted sequence, just before the entries whose key
      is larger. */
  function InsertByKey(x: string, s: seq<string>, key: string -> nat): (r: seq<string>)
    ensures multiset(r) == multiset(s) + multiset{x}
  {
    if s == [] || key(s[|s| - 1]) <= key(x) then s + [x]
    else
      var init := s[..|s| - 1];
      assert s == init + [s[|s| - 1]];
      InsertByKey(x, init, key) + [s[|s| - 1]]
  }

  /** Inserting into a key-sorted sequence keeps it key-sorted. */
  lemma {:induction false} InsertSorted(x: string, s: seq<string>, key: string -> nat)
    requires KeySorted(s, key)
    ensures KeySorted(InsertByKey(x, s, key), key)
  {
    if s != [] && key(s[|s| - 1]) > key(x) {
      var init := s[..|s| - 1];
      var last := s[|s| - 1];
      InsertSorted(x, init, key);
      var mid := InsertByKey(x, init, key);
      forall i | 0 <= i < |mid| ensures key(mid[i]) <= key(last) {
        assert mid[i] in multiset(mid);
        if mid[i] != x {
          assert mid[i] in multiset(init);
          var j :| 0 <= j < |init| && init[j] == mid[i];
          assert s[j] == init[j];
        }
      }
    }
  }

  /** Inserting x adds it after the entries of equal key already present:
      every group of equal keys keeps its order. */
  lemma {:induction false} InsertWithKey(x: string, s: seq<string>, key: string -> nat, k: nat)
    ensures WithKey(InsertByKey(x, s, key), key, k) == WithKey(s, key, k) + (if key(x) == k then [x] else [])
  {
    if s == [] || key(s[|s| - 1]) <= key(x) {
      assert (s + [x])[..|s|] == s;
    } else {
      var init := s[..|s| - 1];
      var last := s[|s| - 1];
      InsertWithKey(x, init, key, k);
      var mid := InsertByKey(x, init, key);
      assert InsertByKey(x, s, key) == mid + [last];
      assert (mid + [last])[..|mid|] == mid;
      assert WithKey(s, key, k) == WithKey(init, key, k) + (if key(last) == k then [last] else []);
    }
  }

  /** sorted(s, key=key), built by inserting the entries one by one from
      the front. */
  function SortByKey(s: seq<string>, key: string -> nat): (r: seq<string>)
    ensures multiset(r) == multiset(s)
  {
    if s == [] then []
    else
      var init := s[..|s| - 1];
      assert s == init + [s[|s| - 1]];
      InsertByKey(s[|s| - 1], SortByKey(init, key), key)
  }

  /** The sort orders by key. */
  lemma {:induction false} SortSorted(s: seq<string>, key: string -> nat)
    ensures KeySorted(SortByKey(s, key), key)
  {
    if s != [] {
      SortSorted(s[..|s| - 1], key);
      InsertSorted(s[|s| - 1], SortByKey(s[..|s| - 1], key), key);
    }
  }

  /** The sort is stable: the entries of each key keep their order. */
  lemma {:induction false} SortStable(s: seq<string>, key: string -> nat, k: nat)
    ensures WithKey(SortByKey(s, key), key, k) == WithKey(s, key, k)
  {
    if s != [] {
      SortStable(s[..|s| - 1], key, k);
      InsertWithKey(s[|s| - 1], SortByKey(s[..|s| - 1], key), key, k);
    }
  }

  /** extract_education's result: a permutation of the kept degree lines, in
      non-decreasing rank, lines of equal rank in document order. */
  lemma EducationOrder(text: string)
    ensures var kept := KeepStripped(Section(SplitLines(text), EducationHeader), IsExampleDegreeLine);
      var sorted := SortByKey(kept, Rank);
      && multiset(sorted) == multiset(kept)
      && (forall i, j :: 0 <= i < j < |sorted| ==> Rank(sorted[i]) <= Rank(sorted[j]))
      && (forall k :: WithKey(sorted, Rank, k) == WithKey(kept, Rank, k))
  {
    var kept := KeepStripped(Section(SplitLines(text), EducationHeader), IsExampleDegreeLine);
    SortSorted(kept, Rank);
    forall k ensures WithKey(SortByKey(kept, Rank), Rank, k) == WithKey(kept, Rank, k) {
      SortStable(kept, Rank, k);
    }
  }

  // ----- Grammar score -----

  /** grammar_score's formula for a given number of reported errors:
      100 * max(0, words - errors) / max(1, words), over the whitespace
      separated words of the text. */
  function GrammarScore(errors: nat, text: string): (score: real)
    ensures 0.0 <= score <= 100.0
    ensures |Words(text)| == 0 ==> score == 0.0
    ensures errors == 0 && |Words(text)| > 0 ==> score == 100.0
    ensures errors >= |Words(text)| ==> score == 0.0
  {
    Percent(CleanWords(errors, |Words(text)|), WordDivisor(|Words(text)|))
  }

  /** max(0, words - errors): the words not charged with an error. */
  function CleanWords(errors: nat, wc: nat): (n: nat)
    ensures n <= wc
    ensures n == 0 <==> errors >= wc
  {
    if wc > errors then wc - errors else 0
  }

  /** max(1, words): the divisor, never zero. */
  function WordDivisor(wc: nat): (d: nat)
    ensures 1 <= d && wc <= d
    ensures wc > 0 ==> d == wc
  {
    if wc > 1 then wc else 1
  }

  /** 100 * part / whole for 0 <= part <= whole: the one real number p with
      p * whole == 100 * part. */
  function Percent(part: nat, whole: nat): (p: real)
    requires 0 < whole && part <= whole
    ensures 0.0 <= p <= 100.0
    ensures part == 0 ==> p == 0.0
    ensures part == whole ==> p == 100.0
    ensures p * (whole as real) == 100.0 * (part as real)
  {
    var q := (part as real) / (whole as real);
    QuotientBounds(part as real, whole as real);
    100.0 * q
  }

  /** x / y of 0 <= x <= y lies in [0, 1]. */
  lemma QuotientBounds(x: real, y: real)
    requires 0.0 <= x <= y && 0.0 < y
    ensures 0.0 <= x / y <= 1.0 && (x / y) * y == x
  {
  }

  // ----- Career recommendation -----

  /** SKILL_CAREER_MAP of example.py: lower-case skill to careers. */
  const SkillCareerMap: map<string, seq<string>> := map[
    "python" := ["Data Scientist", "Software Engineer"],
    "java" := ["Java Developer", "Software Engineer"],
    "sql" := ["Database Administrator", "Data Analyst"],
    "excel" := ["Data Analyst", "Business Analyst"],
    "aws" := ["Cloud Engineer", "DevOps Engineer"]
  ]

  /** The careers of every skill whose lower-cased form is a key. */
  function CareerUnion(skills: seq<string>): set<string> {
    set i, c | 0 <= i < |skills| && Lower(skills[i]) in SkillCareerMap
      && c in SkillCareerMap[Lower(skills[i])] :: c
  }

  /** recommend_careers: the union, built skill by skill. */
  method RecommendCareers(skills: seq<string>) returns (recs: set<string>)
    ensures recs == CareerUnion(skills)
  {
    recs := {};
    for i := 0 to |skills|
      invariant recs == CareerUnion(skills[..i])
    {
      var key := Lower(skills[i]);
      if key in SkillCareerMap {
        recs := recs + set c | c in SkillCareerMap[key];
      }
      assert skills[..i + 1][..i] == skills[..i];
    }
    assert skills[..|skills|] == skills;
  }

  /** Without a matching skill there is no recommendation at all. */
  lemma NoMatchNoCareers(skills: seq<string>)
    requires forall i :: 0 <= i < |skills| ==> Lower(skills[i]) !in SkillCareerMap
    ensures CareerUnion(skills) == {}
  {
  }

  /** The lookup ignores the case of the skill. */
  lemma CareerUnionIgnoresCase(skills: seq<string>, lowered: seq<string>)
    requires |lowered| == |skills|
    requires forall i :: 0 <= i < |skills| ==> lowered[i] == Lower(skills[i])
    ensures CareerUnion(lowered) == CareerUnion(skills)
  {
    forall i | 0 <= i < |skills| ensures Lower(lowered[i]) == Lower(skills[i]) {
      LowerIdempotent(skills[i]);
    }
  }
}
