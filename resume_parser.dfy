/** The field extraction of utils/resume_parser.py: the dispatch on the file
    extension, the name, skill, education, certification and experience
    heuristics over the document text, the additive quality score and the
    skill-to-career recommendation. The document readers (PDF, Word, OCR),
    the email and phone regular expressions and the skill-to-career map are
    outside this module and enter as parameters. */
module ResumeParser {
  import opened Wrappers
  import opened Text
  import opened StringOrder

  /** The value every text field takes when its heuristic finds nothing. */
  const NotFound: string := "Not Found"

  /** The single recommendation given when no skill is a key of the map. */
  const GeneralRole: string := "General Role Based on Resume"

  // ----- Extension dispatch (extract_text) -----

  /** The three document readers `extract_text` chooses between. */
  datatype Format = Pdf | Word | Image

  /** The ValueError raised for an extension no reader accepts. */
  datatype ParseError = UnsupportedFileType(ext: string)

  /** filename.lower().split('.')[-1]: the lower-cased text after the last
      '.', or the whole lower-cased name when it has no '.'. */
  function Extension(filename: string): (ext: string)
    ensures NoneOf(ext, {'.'})
    ensures |ext| <= |filename| && ext == Lower(filename)[|filename| - |ext|..]
    ensures NoneOf(filename, {'.'}) ==> ext == Lower(filename)
    ensures !NoneOf(filename, {'.'}) ==> |ext| < |filename| && filename[|filename| - |ext| - 1] == '.'
  {
    var low := Lower(filename);
    SplitOnLast(low, {'.'});
    SplitOnPiecesFree(low, {'.'});
    var parts := SplitOn(low, {'.'});
    var ext := parts[|parts| - 1];
    assert !NoneOf(filename, {'.'}) ==> !NoneOf(low, {'.'});
    assert |ext| < |filename| ==> low[|filename| - |ext| - 1] == '.';
    ext
  }

  /** The reader `extract_text` selects for a file name, or the error it
      raises for any other extension. */
  function FileFormat(filename: string): (r: Result<Format, ParseError>)
  {
    var ext := Extension(filename);
    if ext == "pdf" then Success(Pdf)
    else if ext == "docx" || ext == "doc" then Success(Word)
    else if ext == "png" || ext == "jpg" || ext == "jpeg" then Success(Image)
    else Failure(UnsupportedFileType(ext))
  }

  /** Only the six listed extensions are accepted; every other one is
      reported back in the error. */
  lemma FileFormatAccepts(filename: string)
    ensures FileFormat(filename).Success? <==>
      Extension(filename) in {"pdf", "docx", "doc", "png", "jpg", "jpeg"}
    ensures FileFormat(filename).Failure? ==>
      FileFormat(filename).error == UnsupportedFileType(Extension(filename))
  {
  }

  /** The extension of `name.ext` is `ext`, lower-cased, whatever `name`
      holds (dots included): the dispatch looks at the last suffix only. */
  lemma {:induction false} ExtensionOfSuffix(name: string, ext: string)
    requires NoneOf(ext, {'.'})
    ensures Extension(name + "." + ext) == Lower(ext)
  {
    var f := name + "." + ext;
    var e := Extension(f);
    assert f[|name|] == '.';
    assert !NoneOf(f, {'.'});
    var low := Lower(f);
    assert low[|name| + 1..] == Lower(ext);
    assert |e| == |ext|;
    assert e == low[|name| + 1..];
  }

  /** The dispatch ignores case: "CV.PDF" and "cv.pdf" choose the same reader. */
  lemma FileFormatIgnoresCase(filename: string)
    ensures FileFormat(Lower(filename)) == FileFormat(filename)
  {
    LowerIdempotent(filename);
  }

  /** A name ending in any other extension is rejected, and the error names
      that extension in lower case. */
  lemma UnsupportedExtension(name: string, ext: string)
    requires NoneOf(ext, {'.'})
    requires Lower(ext) !in {"pdf", "docx", "doc", "png", "jpg", "jpeg"}
    ensures FileFormat(name + "." + ext) == Failure(UnsupportedFileType(Lower(ext)))
  {
    ExtensionOfSuffix(name, ext);
  }

  /** An upper-case extension selects the same reader: "CV.PDF" is a PDF. */
  lemma UpperCasePdf(name: string)
    ensures FileFormat(name + "." + "PDF") == Success(Pdf)
  {
    PdfSuffix();
    ExtensionOfSuffix(name, "PDF");
    PdfExtension(name + "." + "PDF");
  }

  /** Any name whose extension is "pdf" goes to the PDF reader. */
  lemma PdfExtension(filename: string)
    requires Extension(filename) == "pdf"
    ensures FileFormat(filename) == Success(Pdf)
  {
  }

  /** "PDF" holds no '.' and lower-cases to "pdf". */
  lemma PdfSuffix()
    ensures NoneOf("PDF", {'.'}) && Lower("PDF") == "pdf"
  {
    var ext := "PDF";
    assert ext[0] == 'P' && ext[1] == 'D' && ext[2] == 'F';
    var low := Lower(ext);
    assert |low| == 3;
    assert low[0] == LowerChar('P') == 'p';
    assert low[1] == LowerChar('D') == 'd';
    assert low[2] == LowerChar('F') == 'f';
  }

  // ----- Name -----

  /** re.search(r'\b(cv|resume)\b', line, re.IGNORECASE): the lowered line
      holds "cv" or "resume" as a whole word. */
  predicate HasTitleMarker(line: string) {
    var low := Lower(line);
    SearchWord(low, "cv", false) || SearchWord(low, "resume", false)
  }

  /** "Not Found" is already in title case, and stripped. */
  lemma NotFoundIsTitled()
    ensures Title(NotFound) == NotFound
    ensures NotFound != [] && !IsSpace(NotFound[0]) && !IsSpace(NotFound[|NotFound| - 1])
  {
    TitleOfTitled(NotFound);
  }

  /** The first position at or after `from` holding a non-empty line: the
      `for ln in lines[1:]: if ln: ... break` scan of the name heuristic. */
  method FirstNonEmpty(lines: seq<string>, from: nat) returns (found: Option<nat>)
    ensures found.Some? ==> from <= found.value < |lines| && lines[found.value] != []
    ensures found.Some? ==> forall k :: from <= k < found.value ==> lines[k] == []
    ensures found.None? ==> forall k :: from <= k < |lines| ==> lines[k] == []
  {
    found := None;
    var i := from;
    while i < |lines|
      invariant from <= i
      invariant forall k :: from <= k < i && k < |lines| ==> lines[k] == []
    {
      if lines[i] != [] {
        found := Some(i);
        break;
      }
      i := i + 1;
    }
  }

  /** The name chosen from the stripped non-empty lines: the first line,
      title-cased, unless that line is a "CV"/"Resume" heading, in which
      case it is the second one; with no line (or only the heading) it is
      "Not Found". */
  function NameFromLines(lines: seq<string>): string {
    if lines == [] then NotFound
    else if HasTitleMarker(lines[0]) then (if |lines| > 1 then Title(Strip(lines[1])) else NotFound)
    else Strip(Title(lines[0]))
  }

  /** The name heuristic of extract_resume_data. */
  method ExtractName(text: string) returns (name: string)
    ensures name == NameFromLines(StrippedNonEmpty(SplitLines(text)))
  {
    name := NameOfLines(StrippedNonEmpty(SplitLines(text)));
  }

  /** The name heuristic over the stripped non-empty lines, with its scan
      for the first non-empty line after a heading. */
  method NameOfLines(lines: seq<string>) returns (name: string)
    requires forall k :: 0 <= k < |lines| ==> lines[k] != []
    ensures name == NameFromLines(lines)
  {
    name := NotFound;
    if |lines| > 0 {
      var first := lines[0];
      if HasTitleMarker(first) {
        var found := FirstNonEmpty(lines, 1);
        assert |lines| > 1 ==> lines[1] != [];
        assert found.Some? <==> |lines| > 1;
        if found.Some? {
          assert found.value == 1;
          var ln := lines[found.value];
          name := Title(Strip(ln));
        }
      } else {
        name := Strip(Title(first));
      }
    }
  }

  /** Whatever the text, the name is already in title case, non-empty and
      without surrounding whitespace. */
  lemma NameIsClean(text: string)
    ensures var name := NameFromLines(StrippedNonEmpty(SplitLines(text)));
      && Title(name) == name
      && name != [] && !IsSpace(name[0]) && !IsSpace(name[|name| - 1])
  {
    CleanLinesName(StrippedNonEmpty(SplitLines(text)));
  }

  /** Over stripped non-empty lines, the name is title-cased, non-empty and
      stripped. */
  lemma CleanLinesName(lines: seq<string>)
    requires forall k :: 0 <= k < |lines| ==> lines[k] != [] && Strip(lines[k]) == lines[k]
    ensures var name := NameFromLines(lines);
      && Title(name) == name
      && name != [] && !IsSpace(name[0]) && !IsSpace(name[|name| - 1])
  {
    if lines == [] || (HasTitleMarker(lines[0]) && |lines| == 1) {
      assert NameFromLines(lines) == NotFound;
      NotFoundIsTitled();
    } else if HasTitleMarker(lines[0]) {
      assert NameFromLines(lines) == Title(Strip(lines[1]));
      TitledLine(lines[1]);
    } else {
      assert NameFromLines(lines) == Strip(Title(lines[0]));
      TitledLine(lines[0]);
    }
  }

  /** Title-casing a stripped non-empty line: stripping before or after
      makes no difference, and the result is title-cased, non-empty and
      without surrounding whitespace. */
  lemma TitledLine(ln: string)
    requires ln != [] && Strip(ln) == ln
    ensures var t := Title(ln);
      && Title(Strip(ln)) == t && Strip(Title(ln)) == t && Title(t) == t
      && t != [] && !IsSpace(t[0]) && !IsSpace(t[|t| - 1])
  {
    TitleOfStripped(ln);
    TitleIdempotent(ln);
  }

  // ----- Skills -----

  /** The first key, from position `from` of the map's key order, whose
      alternative `\b key \b` matches at position i of the lowered text. */
  function FirstKeyAt(low: string, keys: seq<string>, i: nat, from: nat): (r: Option<nat>)
    requires i <= |low| && from <= |keys|
    ensures r.Some? ==> from <= r.value < |keys| && WordAt(low, i, Lower(keys[r.value]), false)
    ensures r.Some? ==> forall j :: from <= j < r.value ==> !WordAt(low, i, Lower(keys[j]), false)
    ensures r.None? ==> forall j :: from <= j < |keys| ==> !WordAt(low, i, Lower(keys[j]), false)
    decreases |keys| - from
  {
    if from == |keys| then None
    else if WordAt(low, i, Lower(keys[from]), false) then Some(from)
    else FirstKeyAt(low, keys, i, from + 1)
  }

  /** re.findall(r'\b(?:k1|k2|...)\b', text, re.IGNORECASE) on the lowered
      text from position i: the leftmost match, taking the first alternative
      that matches there, then the search resumes after it. Every match is a
      key, lower-cased, that occurs in the text as a whole word. */
  function FindAllFrom(low: string, keys: seq<string>, i: nat): (found: seq<string>)
    requires i <= |low|
    requires forall j :: 0 <= j < |keys| ==> keys[j] != []
    ensures forall m :: 0 <= m < |found| ==> IsFoundKey(low, keys, found[m])
    decreases |low| - i
  {
    if i == |low| then []
    else
      match FirstKeyAt(low, keys, i, 0)
      case None => FindAllFrom(low, keys, i + 1)
      case Some(j) =>
        var k := Lower(keys[j]);
        assert low[i..i + |k|] == k;
        SearchFromAt(low, k, false, 0, i);
        assert IsFoundKey(low, keys, k);
        var rest := FindAllFrom(low, keys, i + |k|);
        assert forall m :: 1 <= m < 1 + |rest| ==> ([k] + rest)[m] == rest[m - 1];
        [k] + rest
  }

  /** `s` is the lower-cased form of a key that occurs in the lowered text
      as a whole word. */
  predicate IsFoundKey(low: string, keys: seq<string>, s: string) {
    exists j :: 0 <= j < |keys| && s == Lower(keys[j]) && SearchWord(low, Lower(keys[j]), false)
  }

  /** `list({s.lower() for s in found_skills})`, or `[]` for an empty map:
      every skill is the lower-cased form of a key of the map that occurs in
      the text as a whole word, in any case; a set has no duplicates. */
  function FoundSkills(text: string, keys: seq<string>): (skills: set<string>)
    requires forall j :: 0 <= j < |keys| ==> keys[j] != []
    ensures forall s :: s in skills ==>
      Lower(s) == s && exists j :: 0 <= j < |keys| && s == Lower(keys[j]) && ContainsWord(text, keys[j])
    ensures keys == [] ==> skills == {}
  {
    if keys == [] then {}
    else
      var found := FindAllFrom(Lower(text), keys, 0);
      assert forall s :: s in found ==> Lower(s) == s by {
        forall s | s in found ensures Lower(s) == s {
          var m :| 0 <= m < |found| && found[m] == s;
          assert IsFoundKey(Lower(text), keys, s);
          var j :| 0 <= j < |keys| && s == Lower(keys[j]) && SearchWord(Lower(text), Lower(keys[j]), false);
          LowerIdempotent(keys[j]);
        }
      }
      set s | s in found
  }

  /** Whole-word matching: the key "java" is not found in "javascript". */
  lemma JavaNotInJavascript()
    ensures !ContainsWord("javascript", "java")
  {
    LowerOfLower("javascript");
    LowerOfLower("java");
    NoWordInsideWord("javascript", "java", false);
  }

  // ----- Education -----

  /** The degree keywords, matched as escaped whole words in any case. */
  const DegreeKeywords: seq<string> := [
    "phd", "doctorate", "m.phil", "msc by research", "m.tech", "m.e", "m.sc",
    "mcom", "ma", "m.arch", "mpharm", "llm", "m.ed", "master of technology",
    "master of engineering", "master of science", "master of commerce", "master of arts",
    "master of architecture", "master of pharmacy", "master of law", "master of education",
    "mba", "mca", "md", "ms", "mpt", "mch", "mdes", "mfa", "m.lib", "m.voc", "mstat",
    "b.tech", "b.e", "b.sc", "bcom", "ba", "b.arch", "bpharm", "llb", "b.ed",
    "bachelor of technology", "bachelor of engineering", "bachelor of science",
    "bachelor of commerce", "bachelor of arts", "bachelor of architecture",
    "bachelor of pharmacy", "bachelor of law", "bachelor of education",
    "bba", "bca", "bhms", "bams", "bpt", "bds", "bfa", "bdes", "b.lib", "b.voc", "bstat",
    "diploma", "pg diploma", "postgraduate diploma", "advanced diploma", "associate degree",
    "graduation", "undergraduate", "degree", "sslc", "puc"
  ]

  /** A line mentions some degree keyword as a whole word. */
  predicate IsDegreeLine(line: string) {
    ContainsAnyWord(line, DegreeKeywords)
  }

  /** The keyword loop of each filter: true at the first keyword found in
      the line as a whole word, in any case. */
  method MentionsKeyword(line: string, keywords: seq<string>) returns (found: bool)
    ensures found == ContainsAnyWord(line, keywords)
  {
    for j := 0 to |keywords|
      invariant forall e :: 0 <= e < j ==> !ContainsWord(line, keywords[e])
    {
      if ContainsWord(line, keywords[j]) {
        return true;
      }
    }
    return false;
  }

  /** The education entries: every line that mentions a degree keyword,
      stripped, without duplicates and in ascending string order (not ranked
      by degree). */
  method ExtractEducation(text: string) returns (education: seq<string>)
    ensures education == SortDistinct(KeepStripped(SplitLines(text), IsDegreeLine))
  {
    var lines := SplitLines(text);
    var educationLines: seq<string> := [];
    for i := 0 to |lines|
      invariant educationLines == KeepStripped(lines[..i], IsDegreeLine)
    {
      var line := lines[i];
      var degree := MentionsKeyword(line, DegreeKeywords);
      if degree {
        educationLines := educationLines + [Strip(line)];
      }
      KeepStrippedSnoc(lines, IsDegreeLine, i);
    }
    assert lines[..|lines|] == lines;
    education := SortDistinct(educationLines);
  }

  /** The entries are exactly the stripped degree lines, each once, in
      strictly ascending order; there are none exactly when no line
      mentions a degree. */
  lemma EducationEntries(lines: seq<string>)
    ensures var education := SortDistinct(KeepStripped(lines, IsDegreeLine));
      && StrictlyAscending(education)
      && (forall e :: e in education <==>
            exists i :: 0 <= i < |lines| && IsDegreeLine(lines[i]) && Strip(lines[i]) == e)
      && (education == [] <==> forall i :: 0 <= i < |lines| ==> !IsDegreeLine(lines[i]))
  {
    DistinctKept(lines, IsDegreeLine);
  }

  /** sorted(set(...)) of the kept lines, for any line filter. */
  lemma DistinctKept(lines: seq<string>, keep: string -> bool)
    ensures var r := SortDistinct(KeepStripped(lines, keep));
      && StrictlyAscending(r)
      && (forall e :: e in r <==>
            exists i :: 0 <= i < |lines| && keep(lines[i]) && Strip(lines[i]) == e)
      && (r == [] <==> forall i :: 0 <= i < |lines| ==> !keep(lines[i]))
  {
    SortDistinctAscending(KeepStripped(lines, keep));
    forall e ensures e in SortDistinct(KeepStripped(lines, keep)) <==>
      exists i :: 0 <= i < |lines| && keep(lines[i]) && Strip(lines[i]) == e
    {
      DistinctKeptMember(lines, keep, e);
    }
    DistinctKeptEmpty(lines, keep);
  }

  /** An entry of sorted(set(kept lines)) is the stripped form of a kept
      line, and every kept line gives one. */
  lemma DistinctKeptMember(lines: seq<string>, keep: string -> bool, e: string)
    ensures e in SortDistinct(KeepStripped(lines, keep)) <==>
      exists i :: 0 <= i < |lines| && keep(lines[i]) && Strip(lines[i]) == e
  {
    var kept := KeepStripped(lines, keep);
    var r := SortDistinct(kept);
    assert e in r <==> e in Elems(r);
    assert e in kept <==> e in Elems(kept);
    KeepStrippedMembers(lines, keep, e);
  }

  /** sorted(set(kept lines)) is empty exactly when no line is kept. */
  lemma DistinctKeptEmpty(lines: seq<string>, keep: string -> bool)
    ensures SortDistinct(KeepStripped(lines, keep)) == [] <==> forall i :: 0 <= i < |lines| ==> !keep(lines[i])
  {
    var r := SortDistinct(KeepStripped(lines, keep));
    if r != [] {
      DistinctKeptMember(lines, keep, r[0]);
    } else {
      forall i | 0 <= i < |lines| ensures !keep(lines[i]) {
        DistinctKeptMember(lines, keep, Strip(lines[i]));
      }
    }
  }

  // ----- Certifications -----

  /** The certification keywords, matched as escaped whole words in any case. */
  const CertificationKeywords: seq<string> :=
    ["certification", "certified", "course", "training", "license", "workshop"]

  /** A line is a certification when it mentions a certification keyword
      and no degree keyword. */
  predicate IsCertificationLine(line: string) {
    ContainsAnyWord(line, CertificationKeywords) && !IsDegreeLine(line)
  }

  /** The certification entries: each certification line once, stripped,
      in document order, repeated lines kept. */
  method ExtractCertifications(text: string) returns (certifications: seq<string>)
    ensures certifications == KeepStripped(SplitLines(text), IsCertificationLine)
  {
    var lines := SplitLines(text);
    certifications := [];
    for i := 0 to |lines|
      invariant certifications == KeepStripped(lines[..i], IsCertificationLine)
    {
      var line := lines[i];
      var certificate := MentionsKeyword(line, CertificationKeywords);
      if certificate {
        var degree := MentionsKeyword(line, DegreeKeywords);
        if !degree {
          certifications := certifications + [Strip(line)];
        }
      }
      KeepStrippedSnoc(lines, IsCertificationLine, i);
    }
    assert lines[..|lines|] == lines;
  }

  /** The certification entries are the stripped certification lines, one
      per line; there are none exactly when no line is a certification. */
  lemma CertificationEntries(lines: seq<string>)
    ensures var certs := KeepStripped(lines, IsCertificationLine);
      && |certs| <= |lines|
      && (forall e :: e in certs <==>
            exists i :: 0 <= i < |lines| && IsCertificationLine(lines[i]) && Strip(lines[i]) == e)
      && (certs == [] <==> forall i :: 0 <= i < |lines| ==> !IsCertificationLine(lines[i]))
  {
    KeptEntries(lines, IsCertificationLine);
  }

  /** A line that mentions a degree is never a certification, whatever
      certification keyword it holds. */
  lemma DegreeLineIsNoCertification(line: string)
    requires IsDegreeLine(line)
    ensures KeepStripped([line], IsCertificationLine) == []
  {
  }

  /** Unlike the education entries, repeated certification lines are kept. */
  lemma CertificationRepeats(line: string)
    requires IsCertificationLine(line)
    ensures KeepStripped([line, line], IsCertificationLine) == [Strip(line), Strip(line)]
  {
    KeepStrippedRepeats(line, IsCertificationLine);
  }

  /** Repeated degree lines give one education entry. */
  lemma EducationDeduplicates(line: string)
    requires IsDegreeLine(line)
    ensures SortDistinct(KeepStripped([line, line], IsDegreeLine)) == [Strip(line)]
  {
    KeepStrippedRepeats(line, IsDegreeLine);
    var kept := [Strip(line), Strip(line)];
    assert kept[..1] == [Strip(line)] && kept[..1][..0] == [];
    assert SortDistinct(kept[..1]) == [Strip(line)];
  }

  // ----- Experience -----

  /** The experience keywords, matched as escaped whole words in any case;
      "worked at" is a two-word phrase. */
  const ExperienceKeywords: seq<string> :=
    ["experience", "intern", "worked at", "company", "responsibilities", "roles", "designation"]

  predicate IsExperienceLine(line: string) {
    ContainsAnyWord(line, ExperienceKeywords)
  }

  /** The experience entries: each line mentioning an experience keyword
      once, stripped but not shortened, in document order. */
  method ExtractExperience(text: string) returns (experience: seq<string>)
    ensures experience == KeepStripped(SplitLines(text), IsExperienceLine)
  {
    var lines := SplitLines(text);
    experience := [];
    for i := 0 to |lines|
      invariant experience == KeepStripped(lines[..i], IsExperienceLine)
    {
      var line := lines[i];
      var mentioned := MentionsKeyword(line, ExperienceKeywords);
      if mentioned {
        experience := experience + [Strip(line)];
      }
      KeepStrippedSnoc(lines, IsExperienceLine, i);
    }
    assert lines[..|lines|] == lines;
  }

  /** The experience entries are the whole stripped experience lines, one
      per line; there are none exactly when no line mentions experience. */
  lemma ExperienceEntries(lines: seq<string>)
    ensures var exp := KeepStripped(lines, IsExperienceLine);
      && |exp| <= |lines|
      && (forall e :: e in exp <==>
            exists i :: 0 <= i < |lines| && IsExperienceLine(lines[i]) && Strip(lines[i]) == e)
      && (exp == [] <==> forall i :: 0 <= i < |lines| ==> !IsExperienceLine(lines[i]))
  {
    KeptEntries(lines, IsExperienceLine);
  }

  /** '\n'.join(entries) if entries else "Not Found" */
  function Render(entries: seq<string>): (s: string)
    ensures entries == [] ==> s == NotFound
    ensures |entries| == 1 ==> s == entries[0]
  {
    if entries == [] then NotFound else Join(entries, '\n')
  }

  /** The certification filter works line by line: the entries of a
      document are those of its first part followed by those of the rest. */
  lemma CertificationsInOrder(a: seq<string>, b: seq<string>)
    ensures KeepStripped(a + b, IsCertificationLine) ==
      KeepStripped(a, IsCertificationLine) + KeepStripped(b, IsCertificationLine)
  {
    KeepStrippedAppend(a, b, IsCertificationLine);
  }

  /** The experience filter works line by line, in document order. */
  lemma ExperienceInOrder(a: seq<string>, b: seq<string>)
    ensures KeepStripped(a + b, IsExperienceLine) ==
      KeepStripped(a, IsExperienceLine) + KeepStripped(b, IsExperienceLine)
  {
    KeepStrippedAppend(a, b, IsExperienceLine);
  }

  /** A rendered field splits back on '\n' into its entries: no kept line
      holds a line break. */
  lemma RenderSplitsBack(text: string, keep: string -> bool)
    requires KeepStripped(SplitLines(text), keep) != []
    ensures SplitOn(Render(KeepStripped(SplitLines(text), keep)), {'\n'}) == KeepStripped(SplitLines(text), keep)
  {
    var lines := SplitLines(text);
    var kept := KeepStripped(lines, keep);
    forall k | 0 <= k < |kept| ensures NoneOf(kept[k], {'\n'}) {
      var i := KeptSource(lines, keep, k);
      StripIsSubstring(lines[i]);
      SubstringNoneOf(kept[k], lines[i], {'\n'});
    }
    SplitOnJoin(kept, '\n');
  }

  // ----- Score -----

  /** Words whose presence anywhere in the text, in any case, earns the
      soft-skill bonus. */
  const SoftSkills: seq<string> :=
    ["communication", "teamwork", "leadership", "creative", "problem solving", "adaptability"]

  /** Words whose presence anywhere in the text, in any case, earns the
      section bonus. */
  const SectionWords: seq<string> :=
    ["education", "experience", "skills", "projects", "certification"]

  /** re.search("(w1|w2|...)", text, re.IGNORECASE): some word occurs as a
      substring, in any case. */
  predicate MentionsAny(text: string, words: seq<string>) {
    exists j :: 0 <= j < |words| && ContainsIgnoreCase(text, words[j])
  }

  /** Five points per skill, for at most six skills. */
  function SkillPoints(skillCount: nat): (p: nat)
    ensures p <= 30 && p % 5 == 0
    ensures skillCount <= 6 ==> p == 5 * skillCount
    ensures skillCount >= 6 ==> p == 30
  {
    (if skillCount < 6 then skillCount else 6) * 5
  }

  /** The word-count adjustment: +10 for 500..1500 words, -10 under 100;
      the two never apply together. */
  function LengthPoints(wordCount: nat): (p: int)
    ensures p == 10 <==> 500 <= wordCount <= 1500
    ensures p == -10 <==> wordCount < 100
    ensures p == 0 <==> 100 <= wordCount < 500 || 1500 < wordCount
  {
    (if 500 <= wordCount <= 1500 then 10 else 0) + (if wordCount < 100 then -10 else 0)
  }

  /** The facts the score is computed from. */
  datatype ScoreInputs = ScoreInputs(
    emailFound: bool, phoneFound: bool, skillCount: nat,
    educationFound: bool, experienceFound: bool,
    softSkill: bool, wordCount: nat, sectionWord: bool)

  /** The additive table before clamping: it never exceeds 100 and never
      falls below -10, so only the lower clamp can change it. */
  function RawScore(f: ScoreInputs): (r: int)
    ensures -10 <= r <= 100
    ensures f.wordCount < 100 ==> r <= 80
  {
    (if f.emailFound then 10 else 0) + (if f.phoneFound then 10 else 0)
    + SkillPoints(f.skillCount)
    + (if f.educationFound then 10 else 0) + (if f.experienceFound then 10 else 0)
    + (if f.softSkill then 10 else 0)
    + (if f.sectionWord then 10 else 0)
    + LengthPoints(f.wordCount)
  }

  /** The inputs of the score as the source computes them from the fields
      and the text. */
  function ScoreInputsOf(email: string, phone: string, skillCount: nat,
                         education: string, experience: string, text: string): ScoreInputs
  {
    ScoreInputs(email != NotFound, phone != NotFound, skillCount,
                education != NotFound, experience != NotFound,
                MentionsAny(text, SoftSkills), |Words(text)|, MentionsAny(text, SectionWords))
  }

  /** The quality score, accumulated step by step and clamped to [0, 100]:
      the table's sum when that is not negative, else 0. */
  method ScoreResume(f: ScoreInputs) returns (score: int)
    ensures 0 <= score <= 100
    ensures score == if RawScore(f) < 0 then 0 else RawScore(f)
  {
    score := 0;
    score := score + (if f.emailFound then 10 else 0);
    score := score + (if f.phoneFound then 10 else 0);
    score := score + (if f.skillCount < 6 then f.skillCount else 6) * 5;
    ghost var contacts := score;
    assert contacts == (if f.emailFound then 10 else 0) + (if f.phoneFound then 10 else 0)
      + SkillPoints(f.skillCount);
    score := score + (if f.educationFound then 10 else 0);
    score := score + (if f.experienceFound then 10 else 0);
    score := score + (if f.softSkill then 10 else 0);
    score := score + (if 500 <= f.wordCount <= 1500 then 10 else 0);
    score := score + (if f.sectionWord then 10 else 0);
    score := score + (if f.wordCount < 100 then -10 else 0);
    assert score - contacts == (if f.educationFound then 10 else 0) + (if f.experienceFound then 10 else 0)
      + (if f.softSkill then 10 else 0) + (if f.sectionWord then 10 else 0) + LengthPoints(f.wordCount);
    assert score == RawScore(f);
    score := if score < 100 then score else 100;
    score := if score > 0 then score else 0;
  }

  // ----- Orchestration (extract_resume_data) -----

  /** The record `extract_resume_data` returns. */
  datatype ResumeData = ResumeData(
    name: string, email: string, phone: string, skills: set<string>,
    education: string, certifications: string, experience: string, score: int)

  /** `extract_resume_data` once the file name is known: `text` is what the
      selected reader produced, `emailMatch` and `phoneMatch` the first
      matches of the email and phone patterns, `skillKeys` the keys of the
      skill-to-career map in its order. An unsupported extension fails
      before any field is computed; otherwise every field is filled, with
      "Not Found" where its heuristic found nothing. */
  method ExtractResumeData(filename: string, text: string,
                           emailMatch: Option<string>, phoneMatch: Option<string>,
                           skillKeys: seq<string>)
    returns (r: Result<ResumeData, ParseError>)
    requires forall j :: 0 <= j < |skillKeys| ==> skillKeys[j] != []
    requires emailMatch.Some? ==> IsSubstring(emailMatch.value, text)
    requires phoneMatch.Some? ==> IsSubstring(phoneMatch.value, text)
    ensures r.Failure? <==> FileFormat(filename).Failure?
    ensures r.Failure? ==> r.error == FileFormat(filename).error
    ensures r.Success? ==>
      var d := r.value;
      var lines := SplitLines(text);
      && d.name == NameFromLines(StrippedNonEmpty(lines))
      && Title(d.name) == d.name
      && d.email == (if emailMatch.Some? then emailMatch.value else NotFound)
      && d.phone == (if phoneMatch.Some? then phoneMatch.value else NotFound)
      && d.skills == FoundSkills(text, skillKeys)
      && d.education == Render(SortDistinct(KeepStripped(lines, IsDegreeLine)))
      && d.certifications == Render(KeepStripped(lines, IsCertificationLine))
      && d.experience == Render(KeepStripped(lines, IsExperienceLine))
      && 0 <= d.score <= 100
      && d.score == (var raw := RawScore(ScoreInputsOf(d.email, d.phone, |d.skills|, d.education, d.experience, text));
                     if raw < 0 then 0 else raw)
  {
    var format := FileFormat(filename);
    if format.Failure? {
      return Failure(format.error);
    }
    var name := ExtractName(text);
    NameIsClean(text);
    var email := if emailMatch.Some? then emailMatch.value else NotFound;
    var phone := if phoneMatch.Some? then phoneMatch.value else NotFound;
    var skills := FoundSkills(text, skillKeys);
    var educationLines := ExtractEducation(text);
    var certLines := ExtractCertifications(text);
    var expLines := ExtractExperience(text);
    var education := Render(educationLines);
    var certifications := Render(certLines);
    var experience := Render(expLines);
    var score := ScoreResume(ScoreInputsOf(email, phone, |skills|, education, experience, text));
    r := Success(ResumeData(name, email, phone, skills, education, certifications, experience, score));
  }

  // ----- Career recommendation (recommend_career) -----

  /** The list `recommend_career` returns: the set of map values it found,
      or the single fallback label. */
  datatype Recommendation<V> = Careers(careers: set<V>) | Fallback(role: string)

  /** The map values of the skills that are keys of the map, looked up as
      they are (case-sensitive). */
  function MappedCareers<V>(skills: seq<string>, careerMap: map<string, V>): set<V>
  {
    set i | 0 <= i < |skills| && skills[i] in careerMap :: careerMap[skills[i]]
  }

  /** No career is found exactly when no skill is a key of the map. */
  lemma MappedCareersEmpty<V>(skills: seq<string>, careerMap: map<string, V>)
    ensures MappedCareers(skills, careerMap) == {} <==>
      forall i :: 0 <= i < |skills| ==> skills[i] !in careerMap
  {
    if exists i :: 0 <= i < |skills| && skills[i] in careerMap {
      var i :| 0 <= i < |skills| && skills[i] in careerMap;
      assert careerMap[skills[i]] in MappedCareers(skills, careerMap);
    }
  }

  /** Each skill that is a key adds its map value, once; with no such skill
      the result is the fallback label alone. */
  method RecommendCareer<V>(skills: seq<string>, careerMap: map<string, V>)
    returns (recommended: Recommendation<V>)
    ensures (exists i :: 0 <= i < |skills| && skills[i] in careerMap) ==>
      recommended == Careers(MappedCareers(skills, careerMap))
    ensures (forall i :: 0 <= i < |skills| ==> skills[i] !in careerMap) ==>
      recommended == Fallback(GeneralRole)
  {
    var found: set<V> := {};
    for i := 0 to |skills|
      invariant found == MappedCareers(skills[..i], careerMap)
    {
      if skills[i] in careerMap {
        found := found + {careerMap[skills[i]]};
      }
      assert MappedCareers(skills[..i + 1], careerMap) ==
        MappedCareers(skills[..i], careerMap) + (if skills[i] in careerMap then {careerMap[skills[i]]} else {}) by {
        var s := skills[..i + 1];
        assert forall j :: 0 <= j < i ==> s[j] == skills[..i][j];
      }
    }
    assert skills[..|skills|] == skills;
    MappedCareersEmpty(skills, careerMap);
    recommended := if found != {} then Careers(found) else Fallback(GeneralRole);
  }

  /** The lookup is case-sensitive: "Python" does not select the key "python". */
  lemma LookupIsCaseSensitive<V>(v: V)
    ensures MappedCareers(["Python"], map["python" := v]) == {}
  {
    MappedCareersEmpty(["Python"], map["python" := v]);
  }
}
