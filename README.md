# Resume field extraction, modelled in Dafny

CareerSaathi reads a resume: a PDF, Word document or image. It turns the
document's text into structured fields:

- name, email and phone;
- skills, education, certifications and experience;
- a 0–100 quality score and career recommendations.

The repository has two independent implementations of these heuristics, and
they disagree in several places. They are modelled as two separate modules
that share only the text primitives:

- `ResumeParser` (resume_parser.dfy) models `utils/resume_parser.py`:
  - the dispatch on the file extension inside `extract_text`;
  - the text logic of `extract_resume_data`: the name, skill, education,
    certification and experience heuristics, and the additive quality score;
  - `recommend_career`.

  The source loops are kept as methods. Each method is proved against a
  specification function, and the properties the code promises are proved
  about those functions as lemmas.
- `ExampleParser` (example_parser.dfy) models `example.py`:
  - the phone pattern and the name heuristic;
  - the four section scanners (skills, education, certifications,
    experience), which share one loop;
  - the stable sort of degrees by seniority rank;
  - the grammar-score formula and the career-union recommender.
- `Text` (text.dfy) holds what both parsers do to strings, over ASCII:
  - `splitlines` on '\n';
  - `strip`, `lower`, `title` and `split()`;
  - `re.split` on a character class;
  - the whole-word regex test `\bkw\b`.
- `StringOrder` (string_order.dfy) holds Python's string order and
  `sorted(set(...))`.
- `Wrappers` (wrappers.dfy) holds `Option` and `Result`.

The two implementations disagree, and each module follows its own file:

- Education:
  - `utils/resume_parser.py` deduplicates the lines and sorts them as
    strings (line 102).
  - `example.py` sorts them by seniority rank and keeps duplicates
    (lines 103–109).
- Recommendation:
  - `recommend_career` looks skills up as written (case-sensitive) and
    falls back to one label when nothing matches (lines 155–160).
  - `recommend_careers` lower-cases each skill and has no fallback
    (example.py:148–154).
- File types: `utils/resume_parser.py` accepts only pdf, docx, doc, png,
  jpg and jpeg, and raises an error for every other extension (lines 17–31).

## Model

| member | source | states |
|---|---|---|
| ResumeParser.FileFormat | utils/resume_parser.py:14-31 | Defines the reader chosen for each extension, or the `UnsupportedFileType` error; its properties are stated by the lemmas below. |
| ResumeParser.Extension | utils/resume_parser.py:14 | The extension is the lower-cased suffix after the last '.', free of '.'. It is the whole lower-cased name when the name holds no '.'. |
| ResumeParser.FileFormatAccepts | utils/resume_parser.py:17-31 | A name is accepted exactly when its extension is one of pdf, docx, doc, png, jpg or jpeg. Otherwise the error names that extension. |
| ResumeParser.ExtensionOfSuffix | utils/resume_parser.py:14 | For every name, the extension of `name.ext` is `ext` lower-cased: only the last suffix counts. |
| ResumeParser.FileFormatIgnoresCase | utils/resume_parser.py:14-31 | Lower-casing the file name never changes the reader chosen or the error. |
| ResumeParser.UnsupportedExtension | utils/resume_parser.py:30-31 | Any other suffix is rejected, with the lower-cased suffix in the error. |
| ResumeParser.UpperCasePdf | utils/resume_parser.py:14-19 | A ".PDF" suffix selects the PDF reader. |
| ResumeParser.NotFoundIsTitled | utils/resume_parser.py:55 | The "Not Found" default is already in title case. |
| ResumeParser.FirstNonEmpty | utils/resume_parser.py:59-62 | The scan returns the first non-empty line at or after the start. Every line before it is empty. None means every line is empty. |
| ResumeParser.NameFromLines | utils/resume_parser.py:54-64 | Defines the name heuristic over the stripped non-empty lines: "Not Found" for no lines, the title-cased second line after a CV/Resume heading, else the title-cased first line. |
| ResumeParser.NameOfLines | utils/resume_parser.py:54-64 | The loop over the stripped non-empty lines returns the name the heuristic defines: "Not Found" for no lines, the title-cased second line after a CV/Resume heading, else the title-cased first line. |
| ResumeParser.ExtractName | utils/resume_parser.py:52-64 | The name is computed from the stripped, non-empty lines of the text. |
| ResumeParser.NameIsClean | utils/resume_parser.py:52-64 | For every text, the name is non-empty, in title case, and has no surrounding whitespace. |
| ResumeParser.CleanLinesName | utils/resume_parser.py:54-64 | Over any stripped non-empty lines, the name is non-empty, in title case, and has no surrounding whitespace. |
| ResumeParser.TitledLine | utils/resume_parser.py:61-64 | On a stripped line, `strip().title()` and `title().strip()` agree, and the result is title-cased and stripped. |
| ResumeParser.FirstKeyAt | utils/resume_parser.py:75-76 | This picks the first alternative of the pattern that matches as a whole word at a position. No earlier key matches there, and None means none matches. |
| ResumeParser.FindAllFrom | utils/resume_parser.py:76 | Every match of findall is the lower-cased form of a key that occurs in the lowered text as a whole word. |
| ResumeParser.FoundSkills | utils/resume_parser.py:72-79 | Every skill is lower-case and is the lower-cased form of a map key that occurs in the text as a whole word, in any case. A set has no duplicates. An empty map gives no skills. |
| ResumeParser.JavaNotInJavascript | utils/resume_parser.py:75 | Whole-word matching: the key "java" is not found in "javascript". |
| ResumeParser.MentionsKeyword | utils/resume_parser.py:98-101 | The keyword loop with `break` answers whether some keyword occurs in the line as a whole word. |
| ResumeParser.ExtractEducation | utils/resume_parser.py:96-102 | The loop's result is `sorted(set(...))` of the stripped lines that mention a degree keyword. |
| ResumeParser.EducationEntries | utils/resume_parser.py:96-102 | The entries are strictly ascending, with no duplicates. A string is an entry exactly when it is the stripped form of some degree line. There are none exactly when no line mentions a degree. |
| ResumeParser.DistinctKept | utils/resume_parser.py:102 | For any line filter, `sorted(set(...))` of the kept lines is strictly ascending, holds exactly their stripped forms, and is empty exactly when no line is kept. |
| ResumeParser.DistinctKeptMember | utils/resume_parser.py:102 | An entry of `sorted(set(...))` is the stripped form of a kept line, and every kept line gives one. |
| ResumeParser.DistinctKeptEmpty | utils/resume_parser.py:102 | `sorted(set(...))` is empty exactly when no line is kept. |
| ResumeParser.EducationDeduplicates | utils/resume_parser.py:102 | A degree line written twice gives a single entry. |
| ResumeParser.ExtractCertifications | utils/resume_parser.py:104-114 | The loop keeps each line once, stripped and in document order, when it mentions a certification keyword and no degree keyword. |
| ResumeParser.CertificationEntries | utils/resume_parser.py:105-114 | There is at most one entry per line. A string is an entry exactly when it is the stripped form of a certification line. There are none exactly when no line qualifies. |
| ResumeParser.DegreeLineIsNoCertification | utils/resume_parser.py:110-111 | A line that mentions a degree is never a certification. |
| ResumeParser.CertificationRepeats | utils/resume_parser.py:112-114 | Repeated certification lines are kept, unlike education entries. |
| ResumeParser.ExtractExperience | utils/resume_parser.py:116-124 | The loop keeps each line once, stripped but not shortened and in document order, when it mentions an experience keyword ("worked at" included). |
| ResumeParser.ExperienceEntries | utils/resume_parser.py:117-124 | There is at most one entry per line. A string is an entry exactly when it is the stripped form of an experience line. There are none exactly when no line qualifies. |
| ResumeParser.CertificationsInOrder | utils/resume_parser.py:107-113 | The certification filter works line by line: the entries of a document are those of its first part followed by those of the rest, so document order is kept. |
| ResumeParser.ExperienceInOrder | utils/resume_parser.py:119-123 | The experience filter keeps document order in the same way. |
| ResumeParser.RenderSplitsBack | utils/resume_parser.py:114 | A non-empty rendered field splits back on '\n' into exactly its entries: no entry holds a line break. |
| ResumeParser.Render | utils/resume_parser.py:102 | No entries give "Not Found". A single entry is the field itself. |
| ResumeParser.SkillPoints | utils/resume_parser.py:130 | The skill contribution is 5·min(count, 6): a multiple of 5, at most 30. |
| ResumeParser.LengthPoints | utils/resume_parser.py:136-140 | +10 exactly for 500–1500 words and −10 exactly under 100 words; the two never apply together. |
| ResumeParser.RawScore | utils/resume_parser.py:127-140 | The sum before clamping lies in [−10, 100], so the upper clamp never changes it. It is at most 80 under 100 words. |
| ResumeParser.ScoreInputsOf | utils/resume_parser.py:128-138 | Defines the score's conditions from the fields and the text: a field counts when it is not "Not Found", the word count is that of `split()`, and the soft-skill and section tests are case-insensitive substring searches. |
| ResumeParser.ScoreResume | utils/resume_parser.py:127-141 | The step-by-step accumulation and clamp give a score in [0, 100]. The score is the table's sum when that is not negative, and 0 otherwise. |
| ResumeParser.ExtractResumeData | utils/resume_parser.py:51-152 | An unsupported extension fails with the dispatch's error. Otherwise each field is its heuristic's value, with "Not Found" where nothing was found, the name is title-cased, and the score is in [0, 100]. The score is the clamped table sum of the returned fields and the text. |
| ResumeParser.MappedCareers | utils/resume_parser.py:156-159 | Defines the set of map values of the skills that are keys, looked up as written. |
| ResumeParser.MappedCareersEmpty | utils/resume_parser.py:156-160 | No career is found exactly when no skill is a key of the map. |
| ResumeParser.RecommendCareer | utils/resume_parser.py:155-160 | Each skill that is exactly a key adds its map value, once. With no such skill the result is the single fallback label. |
| ResumeParser.LookupIsCaseSensitive | utils/resume_parser.py:158 | "Python" does not select the key "python". |
| ExampleParser.DigitRun | example.py:55 | This is the maximal run of digits from a position. |
| ExampleParser.IsPhoneNumber | example.py:55 | Defines the shape the pattern accepts: an optional '+', then 8–15 digits, the first not '0'. |
| ExampleParser.PhoneAt | example.py:55 | A match of `\+?[1-9][0-9]{7,14}` at a position is 8 to 16 characters long and lies inside the text. |
| ExampleParser.PhoneAtMatches | example.py:55 | The match has the phone shape: an optional '+' and 8–15 digits, the first not '0'. The greedy repetition leaves no digit it could still take. |
| ExampleParser.PhoneFrom | example.py:56 | This is the leftmost matching position. No position before it matches, and None means no position matches. |
| ExampleParser.ExtractPhone | example.py:53-57 | The result is None exactly when no position starts a match. Otherwise it is a phone-shaped substring of the text, and it is what the leftmost match covers: no position before it starts a match. |
| ExampleParser.PhoneAtComplete | example.py:55 | Every phone-shaped piece of the text starts a match: the scan misses no occurrence of the pattern. |
| ExampleParser.DigitRunAtLeast | example.py:55 | A run of n digits makes the measured run at least n long. |
| ExampleParser.ExtractPhoneLeftmost | example.py:53-57 | Over the pattern itself: None exactly when no piece of the text is phone-shaped; otherwise the result occurs at a position before which no phone-shaped piece starts. |
| ExampleParser.NoMatchNoPhone | example.py:56 | Where no position before j starts a match, no phone-shaped piece starts before j. |
| ExampleParser.PhoneOfNumber | example.py:53-57 | A text that is itself a phone number is found whole. |
| ExampleParser.PhoneAtWhole | example.py:55 | The match at the start of a phone number covers all of it. |
| ExampleParser.DigitsRunToEnd | example.py:55 | A run of digits that reaches the end is the rest of the text. |
| ExampleParser.StartsWithFullName | example.py:68 | Defines the greedy test for `^[A-Z][a-z]+ [A-Z][a-z]+`; `StartsWithFullNameIff` proves it equal to the pattern. |
| ExampleParser.LowerRun | example.py:68 | This is the maximal run of lower-case letters from a position. |
| ExampleParser.StartsWithFullNameIff | example.py:68 | The greedy scan accepts exactly the lines that `^[A-Z][a-z]+ [A-Z][a-z]+` matches. |
| ExampleParser.RunOfLowers | example.py:68 | A run of exactly n lower-case letters before a non-letter is the run the scan measures. |
| ExampleParser.AfterFirstColon | example.py:64-66 | This is `split(':', 1)[1]`: the suffix after the first ':'. No earlier character is a ':'. |
| ExampleParser.NameCandidate | example.py:62-69 | A line yields a name exactly when it is a "name…:" field or starts with two capitalised words. |
| ExampleParser.NameOfLines | example.py:61-70 | None comes exactly from no lines. The first line that settles the name gives its candidate. When no line settles it, the result is the first line. |
| ExampleParser.ExtractName | example.py:59-70 | The same three promises hold over the stripped non-empty lines of the text. |
| ExampleParser.FirstCandidate | example.py:62-69 | Returning the candidate of the first settling line meets all three promises of the name heuristic. |
| ExampleParser.NameFieldCandidate | example.py:63-66 | `tag:rest`, where the tag reads "name" in any case, yields the stripped rest. |
| ExampleParser.HeaderFrom | example.py:76-77 | This is the first header line at or after a position. None means no line from there contains the header. |
| ExampleParser.FindHeader | example.py:76-77 | The scanners' loop stops at the first line that contains the header, in any case. |
| ExampleParser.HeaderAt | example.py:76-77 | The first header line is the one with no header line before it. |
| ExampleParser.BodyLength | example.py:79-81 | The body runs up to, not including, the first blank line or line ending in ':'. |
| ExampleParser.Section | example.py:76-81 | Defines the section: the lines after the first header line up to the first blank line or line ending in ':', or none without a header. |
| ExampleParser.SectionBetween | example.py:76-83 | The section is exactly the lines strictly between the first header line and the first closing line after it. |
| ExampleParser.BodyEndsAt | example.py:79-81 | The body ends exactly at the first closing line. |
| ExampleParser.NoSection | example.py:76-84 | No header line means an empty section. |
| ExampleParser.SectionLinesOpen | example.py:80-81 | No line of a section is blank or ends in ':'. |
| ExampleParser.ScanSection | example.py:76-83 | The shared nested loop with `break` returns the entries of the section's lines, in order. |
| ExampleParser.SectionOpenedAt | example.py:79-81 | A loop stopped at a closing line, or at the end, has read exactly the section. |
| ExampleParser.FlatMapMembers | example.py:82 | An entry comes from some line of the section. |
| ExampleParser.MapEach | example.py:120 | One result per line, in order. |
| ExampleParser.FlatMapOfSingletons | example.py:120 | One entry per line is a plain map over the section. |
| ExampleParser.FlatMapKeep | example.py:97-100 | Keeping a stripped line when a test holds is a filter of the section. |
| ExampleParser.ExtractCertifications | example.py:112-122 | The entries are every line of the certification section, stripped, with no keyword filter. |
| ExampleParser.Headline | example.py:133-135 | Defines an experience entry: the first min(8, n) words of the line, single-spaced. |
| ExampleParser.HeadlineWords | example.py:133-135 | An experience entry splits back into the line's first min(8, n) words. It is non-empty for a non-blank line. |
| ExampleParser.ExtractExperience | example.py:124-137 | The entries are the headline of every line of the experience section, in order. |
| ExampleParser.ExperienceEntriesNonEmpty | example.py:129-135 | Every experience entry is non-empty. |
| ExampleParser.SkillEntry | example.py:82 | Defines a skills line's tokens: its pieces split on ',' or '•', stripped, empty ones dropped. |
| ExampleParser.ExtractSkills | example.py:72-84 | The entries are the tokens of every line of the skills section, in order. |
| ExampleParser.SkillEntryTokens | example.py:82 | A token is non-empty and stripped, holds no ',' or '•', and occurs in its line as written, with its case kept. |
| ExampleParser.StrippedPiece | example.py:82 | Stripping a piece that holds no separator keeps it free of separators and inside the line. |
| ExampleParser.SkillsAreTokens | example.py:72-84 | Every skill is such a token and occurs in some line of the skills section. |
| ExampleParser.IsExampleDegreeLine | example.py:96-100 | Defines a degree line: some keyword, used as an unescaped pattern, matches the lowered line as a whole word. |
| ExampleParser.PhdDotIsWild | example.py:89-98 | The unescaped '.' in "ph.d" matches any character: "ph?d" is a degree line. |
| ExampleParser.Rank | example.py:104-108 | The rank is the index of the first key of the order contained in the lowered line, or 10 when there is none. |
| ExampleParser.RankFrom | example.py:105-108 | This is the first key at or after an index that the line contains. |
| ExampleParser.DegreeRank | example.py:104-108 | The loop with early return computes that rank. |
| ExampleParser.ExtractEducation | example.py:86-110 | The result is the stripped degree lines of the education section, sorted by rank. |
| ExampleParser.InsertByKey | example.py:109 | Insertion adds exactly one entry: the multiset gains x. |
| ExampleParser.InsertSorted | example.py:109 | Inserting into a key-sorted sequence keeps it key-sorted. |
| ExampleParser.InsertWithKey | example.py:109 | x goes after the entries of equal key already present. |
| ExampleParser.SortByKey | example.py:109 | The sort is a permutation of its input. |
| ExampleParser.SortSorted | example.py:109 | The sort result is in non-decreasing key order. |
| ExampleParser.SortStable | example.py:109 | The sort is stable: the entries of each key keep their order. |
| ExampleParser.EducationOrder | example.py:96-109 | The education result is a permutation of the kept lines in non-decreasing rank, with lines of equal rank in document order. |
| ExampleParser.GrammarScore | example.py:144-146 | The score is in [0, 100]. Empty text scores 0. No errors with at least one word scores 100. At least as many errors as words scores 0. |
| ExampleParser.CleanWords | example.py:145 | `max(0, words − errors)` is at most the word count. It is 0 exactly when errors ≥ words. |
| ExampleParser.WordDivisor | example.py:145 | `max(1, words)` is never 0. It is at least the word count and equals it for a non-empty text. |
| ExampleParser.Percent | example.py:145 | 100·part/whole lies in [0, 100]. It is the real number p with p·whole = 100·part. |
| ExampleParser.CareerUnion | example.py:149-153 | Defines the union of the careers of every skill whose lower-cased form is a key. |
| ExampleParser.RecommendCareers | example.py:148-154 | The loop returns the union of the careers of every skill whose lower-cased form is a key. |
| ExampleParser.NoMatchNoCareers | example.py:148-154 | With no matching skill the result is empty: there is no fallback label. |
| ExampleParser.CareerUnionIgnoresCase | example.py:151 | Lower-casing the skills first changes nothing. |
| Text.Lower | utils/resume_parser.py:14 | Lower-casing is ASCII, character by character, and keeps the length. |
| Text.LowerIdempotent | utils/resume_parser.py:14 | Lower-casing twice is lower-casing once. |
| Text.Strip | utils/resume_parser.py:52 | `strip()` is empty exactly for a blank line. Otherwise it starts and ends with a non-space. |
| Text.StripIsSubstring | utils/resume_parser.py:52 | The stripped line occurs in the line. |
| Text.SplitLines | utils/resume_parser.py:52 | No line of `splitlines()` holds a '\n'. |
| Text.SplitLinesJoin | utils/resume_parser.py:52 | Joining the lines with '\n' gives back the text, minus one final '\n'. |
| Text.SplitOnPiecesOccur | example.py:82 | Every piece of `re.split` on a character class occurs in the line. |
| Text.SplitOnPiecesFree | example.py:82 | No piece holds a separator. |
| Text.Words | example.py:133 | `split()` returns whitespace-free tokens. It is empty exactly for a blank text. |
| Text.WordsOfJoinSpace | example.py:134 | `' '.join` of tokens splits back into the same tokens. |
| Text.Title | utils/resume_parser.py:61 | `title()` upper-cases a letter not preceded by a letter and lower-cases the rest. |
| Text.TitleIdempotent | utils/resume_parser.py:61 | Title-casing twice is title-casing once. |
| Text.ContainsWord | utils/resume_parser.py:99 | Defines the case-insensitive whole-word test `\bkw\b` on the lowered line and keyword. |
| Text.SearchWordIff | utils/resume_parser.py:99 | The scan for `\bkw\b` succeeds exactly when kw occurs at some position with a word boundary (one side a word character, the other not or the edge) on both ends. |
| Text.NoWordInsideWord | utils/resume_parser.py:99 | A keyword strictly inside a run of word characters is never a whole-word match. |
| Text.KeepStripped | utils/resume_parser.py:96-101 | Defines `[line.strip() for line in lines if keep(line)]`; its length is at most the number of lines. |
| Text.StrippedNonEmpty | utils/resume_parser.py:52 | Every line of `[l.strip() for l in lines if l.strip()]` is non-empty and already stripped. |
| Text.KeepStrippedAppend | utils/resume_parser.py:106-113 | The filter of a concatenation is the concatenation of the filters: it keeps document order. |
| Text.KeptEntries | utils/resume_parser.py:96-101 | The filtered lines hold at most one entry per line, exactly the stripped kept lines, and none when no line is kept. |
| Text.KeepStrippedSnoc | utils/resume_parser.py:97-101 | One more line extends the filter by that line's entry, if it is kept. |
| StringOrder.SortDistinct | utils/resume_parser.py:102 | `sorted(set(...))` has the same entries as its input. |
| StringOrder.SortDistinctAscending | utils/resume_parser.py:102 | The result is strictly ascending: sorted and free of duplicates. |
| StringOrder.AscendingUnique | utils/resume_parser.py:102 | A strictly ascending sequence is determined by its entries, so `sorted(set(...))` has one possible result. |
| StringOrder.LessTransitive | utils/resume_parser.py:102 | Python's string order is transitive. |
| StringOrder.LessTotal | utils/resume_parser.py:102 | Python's string order is total. |

## Left out

- Document reading (utils/resume_parser.py:16-29, example.py:18-46): PyMuPDF, python-docx, PIL and Tesseract OCR are foreign libraries. Only the extension dispatch and its error are modelled, and the text arrives as a parameter.
- `extract_text` of example.py: its suffix tests and reader choice sit inside the same foreign I/O. Its rules differ from the other parser (it accepts tiff and bmp and rejects doc).
- File name and stream resolution in `extract_resume_data` (lines 38-50): `open`, attribute probing, `seek` and `os.path.basename` are I/O. The model starts from the base file name.
- The email regular expressions (utils/resume_parser.py:67-68, example.py:48-51): backtracking over `\S+` is not modelled. `extract_email` of example.py is not part of this model.
- The composite phone pattern of utils/resume_parser.py:69-70: its backtracking is not modelled either.
  - Email and phone enter `ExtractResumeData` as the first match, when there is one.
  - Each such match is only required to be a substring of the text.
- ResumeParser.FoundSkills: the property is one-directional. Every skill is a key found in the text, but a key found only inside another key's match (findall's matches do not overlap) may be missing, so the converse is not stated.
- ResumeParser.FoundSkills: it requires every map key to be non-empty. The effect of an empty alternative in the pattern is not modelled.
- The skill-to-career map of utils/resume_parser.py comes from a `career_mapping` module that is not part of this model.
  - Its keys are a parameter.
  - Its values are a type parameter `V`, added to the set as they are.
- ResumeParser.RecommendCareer: the result is a set. The order of `list(recommended)` depends on hashing and is not modelled.
- ExampleParser.RecommendCareers: the result is a set; the order of `list(recs)` is not modelled.
- language_tool_python (example.py:140-142) is a foreign grammar checker, so the error count is a parameter of `GrammarScore`.
- ExampleParser.GrammarScore: the formula is computed over exact reals. Floating-point rounding is not modelled.
- Unicode:
  - Characters are ASCII, plus the '•' separator of the skills split.
  - `lower`, `title`, `strip`, `\b` and IGNORECASE follow their ASCII behaviour.
- Text.SplitLines splits on '\n' only. Python's `splitlines` also breaks at '\r', "\r\n", '\v', '\f' and '\x1c'–'\x1e', even on ASCII text. So on CRLF text the model keeps the '\r' at the end of each line. A following heading such as "Education:\r" then does not close an example.py section, because the raw line does not end in ':' (example.py:80). The source closes the section there, while the model keeps collecting lines. `strip` removes the '\r', so the stripped entries are unaffected.
- ResumeParser.FoundSkills: the result is a set. The order of `list({...})` (utils/resume_parser.py:77) depends on string hashing and is not modelled.
- ExampleParser.PhoneFrom: its None case is stated one way (no position matches). `ExtractPhone` states the if-and-only-if relative to `PhoneAt`, and `ExtractPhoneLeftmost` restates it over the phone shape itself.
- The email and phone checks in the score (utils/resume_parser.py:128-129) are booleans of `ScoreInputs`, computed from the fields by `ScoreInputsOf`.
- `main`, printing and the module-level call (example.py:156-181) are I/O.
- init_db.py is SQLite table definitions, with no decision logic.
- The four section scanners of example.py are modelled as one loop (`ScanSection`) with a per-line function each. They differ only in the header and in what they do with a line.
