# jordis content pipeline, modelled in Dafny

jordis is a small static site of writing and voice notes. Content lives as
files under `data/<category>/` for four categories: `diario` (diary),
`extras`, `libros` (books, one file per chapter) and `pensamientos`
(thoughts, HTML or audio). A build script turns each directory into a JSON
index, `data/<category>.json`. Browser scripts then read those indices:

- a list viewer lists a category;
- a chapter reader shows one chapter of a book with buttons to its
  neighbours;
- an editor fills in and validates dates and times.

This project models the logic of these four scripts:

- **`js/utils.js`** (module `Utils`):
  - the strict filename parser `YYYY-MM-DD__HH-mm-ss…`;
  - the parser for audio exports named `WhatsApp Audio YYYY-MM-DD at HH.MM.SS…`;
  - the two tolerant HTML extractors `extractTitle` and `extractMetaByIds`.
- **`js/build-indices.js`** (module `BuildIndices`):
  - the flexible filename parser, with its three rules and their fallback;
  - `buildForCategory`, as a function per entry plus methods for the imperative parts:
    - the loop that builds one record per accepted entry;
    - the sort, newest first, in place on an array;
    - the books linking, which groups records by lower-cased book into a map and walks each group, writing `prev`/`next` into the array.
- **`js/lector-core.js`** (module `LectorCore`):
  - the list viewer's path normalisation and descending sort (a method on an array);
  - the list label;
  - the audio test;
  - `fmtFechaBonita` (a date in Spanish, "16 de octubre");
  - `samePath`;
  - the reader's neighbour lookup;
  - the date fallback of `getMetaFromHTML`.
- **`js/editor-core.js`** (module `EditorCore`):
  - `two`;
  - `isValidDateYMD`, with `Date.UTC` modelled as the calendar arithmetic it performs;
  - `isValidTimeHM`.

Two more modules support the others:

- `Strings` holds the JavaScript string operations the scripts rely on:
  - `trim` and the `\s` class;
  - `toLowerCase` and the `i` flag;
  - `split`/`join`;
  - `<` on strings;
  - `String(n)` and `parseInt`.
- `Sorting` holds the descending in-place sort that both the index builder and the viewer perform with the comparator `a < b ? 1 : -1`.

Every regular expression is written out as the matcher it denotes: leftmost match, and greedy or lazy repetition as in the pattern.

The main results:

- **Filename parsers.**
  - The strict and the audio-export parsers read back every well-formed name.
  - The flexible parser reads back names dated by rule 1 (`date_HH-MM`, `date_HH-MM-SS`, `date__HH-MM-SS`). It also reads back names ending in a rule-2 date and clock, with or without seconds, provided no four digits in a row come before that date. Otherwise an earlier match can decide: `2025-10-16_09-36_x_2025-10-17-19-24.html` goes by rule 1 and gives the first date. By rule 3 it takes the leftmost bare date (`randomnote_2025-10-16.html`).
  - The flexible parser finds a date exactly when the name holds one, and it agrees with the strict parser wherever that one succeeds.
- **HTML extractors.** Each finder returns the leftmost match of its pattern, or nothing exactly when the pattern matches nowhere. For the common page shapes the extracted value is stated outright: a one-line `<title>`, a `<span id="…">`, and an `<h3>` heading.
- **Records.** An entry yields a record exactly when it is a file with an accepted extension. Its category-specific fields come from the parts of its name.
- **Sort.** The index is a permutation of the built records with non-increasing keys. The key is `date + "__" + time`, with `-` for `:` and `00:00:00` for a missing or empty time; a record without a date is keyed by its path. So among well-formed dates a later date comes first, whatever the times. On the same date a later time comes first, and a record at `00:00:00` ties with one that has no time.
- **Books linking.**
  - The linked index keeps the order and every other field.
  - Each record's `prev`/`next` is its nearest neighbour of the same book, or `''` only at the ends of its book.
  - Links are symmetric.
  - The in-place group walk computes exactly this.
- **Reader navigation.** The reader's buttons use whole-index neighbours. In an index of a single book they lead where the stored `prev`/`next` point. Where the neighbouring record belongs to another book they lead elsewhere (`ViewerCrossesBooks`).
- **Editor validators.**
  - `isValidDateYMD` accepts exactly the real calendar days with a year of at least 100, so years `0000` to `0099` are always refused.
  - `isValidTimeHM` accepts exactly hours 0–23 and minutes 0–59.
  - The defaults the editor writes pass its own validators.

The list label reads `item.title`. The index builder writes the chapter title under `titulo` (js/build-indices.js:96), so a label built from an index record never holds a title. `LectorCore.ItemOf` reflects this.

## Model

| member | source | states |
|---|---|---|
| Strings.Or | js/build-indices.js:68 | `a \|\| b` on a string that may be missing: the string when present and non-empty, the fallback otherwise |
| Strings.TrimOffset | js/utils.js:13 | the number of leading white-space characters: all before it are white space, the one at it is not |
| Strings.TrimLimit | js/utils.js:13 | the cut after the last character that is not white space: everything from it on is white space |
| Strings.Trim | js/utils.js:13 | `trim`: the result neither starts nor ends with white space; it is the infix after the leading white space; it is empty exactly when the input is all white space; it is the input itself when that holds no white space |
| Strings.LowerChar | js/build-indices.js:46 | `toLowerCase` on one character: ASCII capitals and the Latin-1 capitals `À`–`Þ` (not `×`) become their small letters; every other character is unchanged |
| Strings.Lower | js/build-indices.js:46 | same length, each character lower-cased |
| Strings.FindChar | js/utils.js:11 | the first position from `p` holding the character, none before it; none at all when absent |
| Strings.FindIgnoreCase | js/build-indices.js:93 | the first position from `p` where the literal occurs up to ASCII case, none before it; none when absent |
| Strings.MatchesCopy | js/utils.js:24 | a copy of a literal made of case-fixed characters matches it with the `i` flag |
| Strings.NoMatchAcross | js/utils.js:24 | a literal whose first character recurs nowhere else in it cannot match across the end of a text followed by that character |
| Strings.SliceMatch | js/build-indices.js:93 | a literal matches inside a slice exactly when it matches at the same place in the whole text |
| Strings.Split | js/build-indices.js:67 | `split`: at least one part, and no part holds the separator |
| Strings.JoinSplit | js/build-indices.js:67 | joining the parts of a split with the separator gives the text back |
| Strings.SplitJoin | js/build-indices.js:67 | splitting a join of separator-free parts gives the parts back |
| Strings.SplitNoSep | js/build-indices.js:67 | a text without the separator splits into itself alone |
| Strings.SplitPrefix | js/build-indices.js:67 | a separator-free first part followed by the separator splits off as the first part |
| Strings.LastIndexOf | js/build-indices.js:46 | the position of the last occurrence, with none after it; none exactly when the character is absent |
| Strings.ReplaceChar | js/build-indices.js:112 | `replace(/x/g, y)` for single characters: every `x` becomes `y` and every other character stays in place, so no `x` is left when `y` differs |
| Strings.LessIrreflexive | js/build-indices.js:114 | `<` on strings is irreflexive |
| Strings.LessAsymmetric | js/build-indices.js:114 | `<` on strings is asymmetric |
| Strings.LessTotal | js/build-indices.js:114 | any two different strings are ordered one way or the other |
| Strings.LessTransitive | js/build-indices.js:114 | `<` on strings is transitive |
| Strings.NotLessTransitive | js/build-indices.js:114 | "not less" is transitive, which is what makes the comparator's order consistent |
| Strings.LessCommonPrefix | js/build-indices.js:112-114 | two strings with a common prefix compare as their remainders do |
| Strings.LessAtFirstDifference | js/build-indices.js:112-114 | two strings compare as their first differing characters do |
| Strings.Less | js/build-indices.js:114 | (no contract of its own) `<` on strings; `LessIrreflexive`, `LessAsymmetric`, `LessTotal`, `LessTransitive` and `LessAtFirstDifference` state that it is the lexicographic order |
| Strings.Join | js/lector-core.js:20 | (no contract of its own) `join`; `JoinSplit` and `SplitJoin` state that it inverts `split` |
| Strings.DigitChar | js/lector-core.js:145 | the character written for a digit is a digit of that value |
| Strings.NatToString | js/lector-core.js:145 | `String(n)`: decimal digits only; no leading zero; one digit exactly when `n < 10` |
| Strings.NatToStringRoundTrip | js/lector-core.js:144-145 | reading back the digits `String(n)` writes gives `n` |
| Strings.NatToStringLength | js/editor-core.js:5 | `String(n)` has at most `w` digits exactly when `n < 10^w` |
| Strings.IntToString | js/editor-core.js:5 | (no contract of its own) `String(n)`; `NatToString` and `NatToStringRoundTrip` state its digits and their value for `n >= 0` |
| Sorting.SortDescending | js/build-indices.js:111-115 | the sort leaves a permutation of the array whose keys never increase |
| Sorting.LargerKeyFirst | js/build-indices.js:114 | in a sorted sequence, an element with a strictly larger key comes first |
| Utils.FirstDateFrom | js/lector-core.js:142 | the leftmost `\d{4}-\d{2}-\d{2}` from `i` on, with none before it; none when there is no date |
| Utils.TimeWithShape | js/utils.js:33 | a time written with another separator keeps its three digit pairs |
| Utils.ParseDateTimeFromName | js/utils.js:29-34 | `parseDateTimeFromName`: either two empty strings, or a date and a time of the right shape that the name's first twenty characters spell out as `date__HH-mm-ss` |
| Utils.StrictMatch | js/utils.js:30 | (no contract of its own) the regular expression of the strict parser; `StrictParts` states what a match captures |
| Utils.StrictParts | js/utils.js:30-33 | the captured fields of a strict match are a date and a time, and spell out the name's first twenty characters |
| Utils.StrictRoundTrip | js/utils.js:29-34 | every date and time written as `date__HH-mm-ss` reads back unchanged, whatever follows |
| Utils.ParseWhatsAppAudio | js/utils.js:37-42 | `parseWhatsAppAudio`: either two empty strings, or a date and a time such that the name starts with `WhatsApp Audio <date> at <HH.MM.SS>` |
| Utils.WhatsAppMatch | js/utils.js:38 | (no contract of its own) the audio-export regular expression; `WhatsAppMatchShape` states what a match captures |
| Utils.WhatsAppMatchShape | js/utils.js:38-41 | the captures of a match are a date and a time, and the name's first 37 characters spell them out |
| Utils.WhatsAppRoundTrip | js/utils.js:37-42 | the name of every audio export reads back as its date and time, whatever follows |
| Utils.WhatsAppNameReads | js/utils.js:37-42 | the same, with the dotted clock given by its pieces |
| Utils.TitleCloseFrom | js/utils.js:24 | the lazy `(.*?)<\/title>`: the first closing tag, with no line terminator and no earlier closing tag before it |
| Utils.TitleCloseIs | js/utils.js:24 | a `</title>` reached along one line with no earlier `</title>` is where the lazy repetition stops |
| Utils.FirstTitleFrom | js/utils.js:24 | the leftmost position where `<title>(.*?)<\/title>` matches, with no match before it; none exactly when it matches nowhere |
| Utils.ExtractTitle | js/utils.js:23-26 | `extractTitle`: the result is trimmed and holds no line terminator; it is '' when the pattern matches nowhere, and non-empty only when it matches |
| Utils.TitleText | js/utils.js:24 | the captured title text holds no line terminator |
| Utils.ExtractTitleOfPage | js/utils.js:23-26 | a page `pre <title>t</title> post`, with no `<title>` in `pre` and `t` one line without `</title>`, has the title `trim(t)` |
| Utils.ExtractTitleOfLayout | js/utils.js:23-26 | the same, for a page given by where its pieces stand |
| Utils.TitleCloseAfter | js/utils.js:24 | one line of text without `</title>`, then `</title>`: the lazy repetition stops right after the text |
| Utils.TitleTextHasNoClose | js/utils.js:24 | no line terminator and no `</title>` starts inside such a text when a `<` follows it |
| Utils.NoTitleBefore | js/utils.js:24 | the pattern matches nowhere inside a prefix without `<title>` that is followed by a `<` |
| Utils.TrimKeepsNoLineTerminator | js/utils.js:25 | trimming a one-line text leaves a one-line text |
| Utils.HasIdAttr | js/utils.js:11 | an `id="…"` attribute for the id starts somewhere in the range |
| Utils.FirstCloseTagFrom | js/utils.js:11 | the lazy `([\s\S]*?)<\/[^>]+>`: the first closing tag from `p` on |
| Utils.FirstElementById | js/utils.js:11-12 | the leftmost position where `<[^>]*id=["']id["'][^>]*>([\s\S]*?)<\/[^>]+>` matches: an opening tag that ends at its first `>` and carries the id, then a closing tag. No match before it; none exactly when it matches nowhere |
| Utils.TextById | js/utils.js:10-14 | the inner `get(id)`: a trimmed text; '' when no element carries the id, and non-empty only when one does |
| Utils.TextByIdOfSpan | js/utils.js:10-14 | a page `pre <span id="id">t</span> post`, where no tag of `pre` carries the id and `t` holds no `</`, gives `trim(t)` for the id |
| Utils.SpanPageLayout | js/utils.js:11 | where the pieces of a page with a span stand |
| Utils.SpanElementAt | js/utils.js:11-12 | the span is an element for the id, and its captured text is the text between its tags |
| Utils.SpanTextEnds | js/utils.js:11 | a text holding no `</` ends at the span's own closing tag |
| Utils.FirstCloseTagIs | js/utils.js:11 | a closing tag with none before it is where the lazy repetition stops |
| Utils.SpanOpenTag | js/utils.js:11 | `<span id="id">` is an opening tag ending at its `>` and carrying the id |
| Utils.SpanTagHasNoGt | js/utils.js:11 | the first `>` after the span's `<` is the one closing its opening tag |
| Utils.SpanIdAttr | js/utils.js:11 | the span's attribute is an `id="…"` for the id |
| Utils.IdAttrHasNoGt | js/utils.js:11 | an attribute for a lower-case id holds no `>` |
| Utils.HasIdAttrIntro | js/utils.js:11 | an attribute for the id at some position of a tag means the tag carries it |
| Utils.HasIdAttrInPrefix | js/utils.js:11 | an attribute inside a tag that closes within a prefix lies in that prefix |
| Utils.NoElementInPre | js/utils.js:11 | a tag that closes within `pre` and carries no attribute for the id is no element for it, whatever follows `pre` |
| Utils.ExtractMetaByIds | js/utils.js:15-20 | `extractMetaByIds` is total and gives four trimmed fields; each is '' when no element carries its id |
| Utils.MetaLibroOfSpan | js/utils.js:15 | a page whose first element with `id="libro"` is a span holding `t` has the book `trim(t)` |
| BuildIndices.Clock | js/build-indices.js:23 | the clock `HH:MM:SS` read at a position: hours and minutes from the name, seconds from the name or `00` |
| BuildIndices.PrefixRule | js/build-indices.js:20-24 | rule 1 only matches a name starting with a date, and returns that date |
| BuildIndices.FirstSuffixFrom | js/build-indices.js:26 | the leftmost start of rule 2, with none before it; none when it matches nowhere |
| BuildIndices.SuffixRule | js/build-indices.js:26-30 | rule 2 only matches a name holding a date |
| BuildIndices.ParseDateTimeFlexible | js/build-indices.js:18-35 | the result's date and time are empty or well-shaped, and a missing date means a missing time |
| BuildIndices.FlexibleFindsAnyDate | js/build-indices.js:31-34 | the flexible parser gives a date exactly when the name holds one somewhere |
| BuildIndices.FlexibleSubsumesStrict | js/build-indices.js:60-61 | whenever the strict parser finds a date, the flexible one returns the identical pair |
| BuildIndices.ClockChars | js/build-indices.js:23 | the clock, character by character |
| BuildIndices.ClockReadsBack | js/build-indices.js:23 | a full clock written with dashes reads back as that clock |
| BuildIndices.PrefixReads | js/build-indices.js:20-24 | rule 1 reads a date, one or two underscores and a full clock |
| BuildIndices.PrefixRoundTrip | js/build-indices.js:20-24 | a name starting `date_HH-MM-SS` or `date__HH-MM-SS` gives that date and time |
| BuildIndices.PrefixWithoutSecondsRoundTrip | js/build-indices.js:20-23 | a name starting `date_HH-MM` (not followed by seconds) gives `HH:MM:00`, as for `2025-10-16_09-36_barcelona.html` |
| BuildIndices.ExtensionTailShift | js/build-indices.js:26 | the optional `.ext` at the end reads the same inside a longer name |
| BuildIndices.NoDateInPrefix | js/build-indices.js:26 | no date starts in a text without four digits in a row |
| BuildIndices.SuffixReads | js/build-indices.js:26-29 | rule 2 matches a date, a separator, a clock without seconds and an optional extension |
| BuildIndices.SuffixLayout | js/build-indices.js:26 | where the pieces of a suffix-dated name stand |
| BuildIndices.SuffixRoundTrip | js/build-indices.js:25-30 | a name ending `date-HH-MM.ext` or `date_HH-MM.ext`, with no four digits in a row before it, gives that date and `HH:MM:00` (e.g. `funcionaria_1_2025-10-16-19-24.html`) |
| BuildIndices.SuffixSecondsRoundTrip | js/build-indices.js:25-30 | a name ending `date-HH-MM-SS.ext` or `date_HH-MM-SS.ext`, with no four digits in a row before it, gives that date and time, seconds included |
| BuildIndices.SuffixSecondsLayout | js/build-indices.js:26 | where the pieces of a name dated with seconds stand |
| BuildIndices.SuffixSecondsReads | js/build-indices.js:26-29 | rule 2 matches a date, a separator, a full clock and an optional extension, and takes the seconds |
| BuildIndices.BareDateRule | js/build-indices.js:31-33 | with neither rule 1 nor rule 2 matching, the leftmost date of the name is taken with an empty time |
| BuildIndices.BareDateExample | js/build-indices.js:31-33 | `randomnote_2025-10-16.html` is dated `2025-10-16` with no time |
| BuildIndices.ExampleHasNoSuffix | js/build-indices.js:26 | rule 2 matches nowhere in `randomnote_2025-10-16.html` |
| BuildIndices.PrefixSingleUnderscore | js/build-indices.js:20-24 | a name starting with a date, one underscore and a clock goes by rule 1, with the seconds when they follow |
| BuildIndices.SuffixWins | js/build-indices.js:25-30 | when rule 1 fails, the leftmost rule-2 match decides the date and the time, with the seconds when rule 2 takes them |
| BuildIndices.FirstSuffixIs | js/build-indices.js:26 | rule 2 is found at its leftmost match |
| BuildIndices.ExtName | js/build-indices.js:46 | `path.extname`: '' or a dot-led suffix of the name with no other dot; '' for names without a dot |
| BuildIndices.StripExtension | js/build-indices.js:66 | `replace(/\.[^.]+$/, '')`: the name, or the prefix before its last dot |
| BuildIndices.PathOfInjective | js/build-indices.js:47 | different entry names give different record paths |
| BuildIndices.PathOf | js/build-indices.js:47 | (no contract of its own) the record path `data/<cat>/<name>`; `PathOfInjective` states that it tells entries apart |
| BuildIndices.StripHtmlSuffix | js/build-indices.js:69 | (no contract of its own) `replace(/\.html?$/i, '')`; `NoHtmlSuffixWithoutDot` states that it keeps a dot-free text |
| BuildIndices.Accepts | js/build-indices.js:49-55 | (no contract of its own) the extension filter; `BuildRecord` states that an entry yields a record exactly when it passes |
| BuildIndices.ChapterTitle | js/build-indices.js:89-97 | (no contract of its own) the title of a readable chapter; `BooksRecordFromName` and `H3TitleOfPage` state its value |
| BuildIndices.BuiltRecords | js/build-indices.js:44-108 | (no contract of its own) the records the entry loop builds; `BuiltRecordsFromEntries` states which |
| BuildIndices.ResolvedIsFlexible | js/build-indices.js:60-61 | "strict parser, then flexible parser when it finds no date" is the flexible parser |
| BuildIndices.StripTags | js/build-indices.js:95 | `replace(/<[^>]+>/g, '')` keeps only characters of the input and never lengthens it; what it removes is stated by the three lemmas below |
| BuildIndices.StripTagsNoTag | js/build-indices.js:95 | a text without tags is left as it is |
| BuildIndices.StripTagsKeepsPlain | js/build-indices.js:95 | a stretch without `<` is kept, whatever follows it |
| BuildIndices.StripTagsDropsTag | js/build-indices.js:95 | a tag `<g>` is removed whole |
| BuildIndices.StripTagsLeavesNoTag | js/build-indices.js:95 | no tag is left after the tags are removed |
| BuildIndices.KeptCharStartsNoTag | js/build-indices.js:95 | a kept character does not start a tag once the rest is stripped |
| BuildIndices.TagShift | js/build-indices.js:95 | a tag one character further on is the same tag |
| BuildIndices.NoTagInInfix | js/build-indices.js:96 | an infix of a tag-free text is tag-free |
| BuildIndices.TagInInfix | js/build-indices.js:96 | a tag inside an infix is a tag of the whole text |
| BuildIndices.FirstH3From | js/build-indices.js:93 | the leftmost position where `<h3[^>]*>([\s\S]*?)<\/h3>` matches, with no match before it; none exactly when it matches nowhere |
| BuildIndices.H3Text | js/build-indices.js:93 | the captured heading text holds no `</h3>` |
| BuildIndices.H3Title | js/build-indices.js:93-97 | the chapter title: present exactly when the heading pattern matches somewhere; tag-free and trimmed |
| BuildIndices.H3TitleOfPage | js/build-indices.js:93-96 | a page `pre <h3>t</h3> post`, with no `<h3` in `pre` and no `</h3>` in `t`, has the title `t` with its tags removed, trimmed |
| BuildIndices.H3TitleOfLayout | js/build-indices.js:93-96 | the same, for a page given by where its pieces stand |
| BuildIndices.H3TextHasNoClose | js/build-indices.js:93 | no `</h3>` starts inside such a text when a `<` follows it |
| BuildIndices.NoH3Before | js/build-indices.js:93 | the pattern matches nowhere inside a prefix without `<h3` that is followed by a `<` |
| BuildIndices.TrimmedTextHasNoTag | js/build-indices.js:95-96 | the title text, stripped and trimmed, holds no tag |
| BuildIndices.TrimKeepsNoTag | js/build-indices.js:96 | trimming keeps a text tag-free |
| BuildIndices.BuildRecord | js/build-indices.js:44-107 | a record exactly for a file with an accepted lower-cased extension, with path `data/<cat>/<name>` and no links. Time is absent exactly for extras. Topic only for extras, place only for diaries, book and chapter only for books. A title only for a readable chapter |
| BuildIndices.AudioRecord | js/build-indices.js:100-105 | an audio entry takes its date and time from the audio-export parser alone, whatever its contents |
| BuildIndices.HtmlRecordDate | js/build-indices.js:58-63 | an HTML entry outside extras takes the flexible parser's date and time from its name |
| BuildIndices.JoinAvoids | js/build-indices.js:67 | a character in no part and other than the separator is not in the join |
| BuildIndices.NamePartsRoundTrip | js/build-indices.js:66-67 | a name `part_part_….ext` has that extension, and its base splits back into the parts |
| BuildIndices.NameWithExtension | js/build-indices.js:46 | a dot-free base plus an extension: `extname` is the extension and stripping gives the base |
| BuildIndices.JoinStartsWithFirst | js/build-indices.js:67 | a join starts with its first part |
| BuildIndices.LastDotBeforeExtension | js/build-indices.js:46 | the last dot of such a name is the extension's |
| BuildIndices.BooksRecordFromName | js/build-indices.js:83-97 | a chapter's book is the first part of its name, its chapter the second, and its title the page's `<h3>` |
| BuildIndices.DiaryRecordFromName | js/build-indices.js:77-81 | a diary entry's place is the last part of its name (`…_barcelona.html` gives `barcelona`) |
| BuildIndices.ExtraRecordFromName | js/build-indices.js:65-75 | an extra's topic is the second part of its name, and it has no time |
| BuildIndices.ExtraDateFromName | js/build-indices.js:69-71 | an extra's date is the third part of its name when present, else the date found in the name |
| BuildIndices.PartHasNoDot | js/build-indices.js:68-69 | a part of a dot-free split holds no dot |
| BuildIndices.ExtraDate | js/build-indices.js:69-71 | the third part, when present, overrides the detected date |
| BuildIndices.ConventionalHtmlName | js/build-indices.js:46 | a conventional HTML name is accepted as HTML and its base splits into its parts |
| BuildIndices.NoHtmlSuffixWithoutDot | js/build-indices.js:69 | removing `.html?` leaves a dot-free text unchanged |
| BuildIndices.Collect | js/build-indices.js:44-108 | what a push loop collects is no longer than its input |
| BuildIndices.CollectMembers | js/build-indices.js:44-108 | a value is collected exactly when some entry yields it |
| BuildIndices.CollectLabelsUnique | js/build-indices.js:47 | distinct entry marks carried into the values stay distinct, and each is an entry's |
| BuildIndices.CollectStep | js/build-indices.js:107 | one more entry appends its value, if it yields one |
| BuildIndices.BuiltRecordsStep | js/build-indices.js:107 | one more entry appends its record, if it yields one |
| BuildIndices.BuiltRecordsFromEntries | js/build-indices.js:44-108 | a record is in the index exactly when some entry yields it |
| BuildIndices.BuiltPathsUnique | js/build-indices.js:47 | with unique entry names, record paths are unique and each is an entry's path |
| BuildIndices.PermutationKeepsUniquePaths | js/build-indices.js:111-115 | sorting keeps paths unique |
| BuildIndices.DistinctRecordsDistinctPaths | js/build-indices.js:111-115 | in a unique-path sequence, different records have different paths |
| BuildIndices.OnceInUniquePaths | js/build-indices.js:111-115 | in a unique-path sequence, every record occurs at most once |
| BuildIndices.FirstDifference | js/build-indices.js:114 | two equal-length strings in order have a first differing position where they are in order |
| BuildIndices.SortKeyOrdersByDate | js/build-indices.js:112-114 | with well-formed dates, a later date gives a larger sort key whatever the times |
| BuildIndices.SortKeyOrdersByTime | js/build-indices.js:112-114 | on the same well-formed date, a later clock (a missing or empty time counting as `00:00:00`) gives a larger sort key |
| BuildIndices.MidnightTies | js/build-indices.js:112-113 | on the same date, a record at `00:00:00` and one with a missing or empty time have equal keys |
| BuildIndices.SortKey | js/build-indices.js:112-113 | (no contract of its own) the sort key: `date + "__" + time` with `-` for `:` and `00:00:00` for a missing or empty time, or the path when the date is empty; `SortKeyOrdersByDate`, `SortKeyOrdersByTime` and `MidnightTies` state the order it gives |
| BuildIndices.BookKey | js/build-indices.js:121 | (no contract of its own) the lower-cased book; `Positions` and `LinkSymmetric` state the grouping it drives |
| BuildIndices.LaterDateFirst | js/build-indices.js:110-115 | in the sorted index, of two records with well-formed dates, the later date comes first whatever the times |
| BuildIndices.LaterTimeFirst | js/build-indices.js:110-115 | in the sorted index, of two records on the same well-formed date, the later clock comes first (a missing or empty time counting as `00:00:00`) |
| BuildIndices.PrevInBook | js/build-indices.js:128 | the nearest position before `j` holding the same book, with none in between; none when there is none |
| BuildIndices.NextInBook | js/build-indices.js:129 | the nearest position from `j` on holding the same book, with none in between; none when there is none |
| BuildIndices.Link | js/build-indices.js:118-134 | the linked index has as many records as the sorted one |
| BuildIndices.LinkChangesOnlyLinks | js/build-indices.js:125-133 | linking keeps the order and every field but `prev` and `next` |
| BuildIndices.LinkKeepsOrder | js/build-indices.js:118-134 | the linked index is still sorted |
| BuildIndices.LinkSymmetric | js/build-indices.js:126-132 | record `i`'s `next` is `j`'s path exactly when `j`'s `prev` is `i`'s path |
| BuildIndices.NextThenPrev | js/build-indices.js:128-131 | the nearest later record of a book has this record as its nearest earlier one |
| BuildIndices.PrevThenNext | js/build-indices.js:128-131 | the nearest earlier record of a book has this record as its nearest later one |
| BuildIndices.LinkBoundaries | js/build-indices.js:130-131 | `prev` is '' exactly for a book's first record and `next` exactly for its last |
| BuildIndices.Linked | js/build-indices.js:125-133 | (no contract of its own) the linked index; `LinkSymmetric`, `LinkBoundaries` and `LinkChangesOnlyLinks` state what it is |
| BuildIndices.Positions | js/build-indices.js:119-123 | a book's group holds, in increasing order, positions of records of that book |
| BuildIndices.PositionsComplete | js/build-indices.js:119-123 | every record of the book is in its group |
| BuildIndices.GroupPrev | js/build-indices.js:128 | the group member before a record is its nearest earlier record of the same book |
| BuildIndices.IncreasingOrder | js/build-indices.js:120-123 | group positions are ordered as the group is |
| BuildIndices.GroupNext | js/build-indices.js:129 | the group member after a record is its nearest later record of the same book |
| BuildIndices.GroupNextInner | js/build-indices.js:129 | the same, for a member that is not the last |
| BuildIndices.GroupNextLast | js/build-indices.js:129 | no record of the book follows the group's last member |
| BuildIndices.GroupsBooks | js/build-indices.js:122 | a book has a group exactly when it is in the order of first appearance |
| BuildIndices.GroupsCover | js/build-indices.js:120-123 | every record's book has a group |
| BuildIndices.BookOrderDistinct | js/build-indices.js:122 | no book is walked twice |
| BuildIndices.PositionsAbsent | js/build-indices.js:119-123 | a book with no record has an empty group |
| BuildIndices.GroupsPositions | js/build-indices.js:119-123 | the map's group of a book is the positions of its records |
| BuildIndices.GroupByBook | js/build-indices.js:119-124 | the grouping loop builds exactly the groups, and the books in order of first appearance |
| BuildIndices.GroupsStep | js/build-indices.js:121-123 | one more record joins its book's group, and a new book joins the order |
| BuildIndices.PositionsNone | js/build-indices.js:119-123 | an empty group means the book has no record |
| BuildIndices.LinkedBooks | js/build-indices.js:125 | between two groups the index keeps its length |
| BuildIndices.LinkedUpTo | js/build-indices.js:126 | part-way through a group the index keeps its length and its paths |
| BuildIndices.LinkedUpToStart | js/build-indices.js:126 | before a group's walk none of its records is linked |
| BuildIndices.LinkedUpToStep | js/build-indices.js:126-132 | one step of the walk sets the member's links to its group neighbours' paths |
| BuildIndices.LinkedUpToEnd | js/build-indices.js:126-132 | after the walk every record of the book is linked |
| BuildIndices.LinkGroup | js/build-indices.js:126-132 | walking one group in place links exactly the records of that book |
| BuildIndices.GroupLinked | js/build-indices.js:127-131 | a linked group member points at its group neighbours, or '' at the ends |
| BuildIndices.GroupGap | js/build-indices.js:129 | no record of the book lies between two group neighbours |
| BuildIndices.LinkedBooksNone | js/build-indices.js:118-125 | with no book walked the index is as sorted |
| BuildIndices.LinkedBooksAll | js/build-indices.js:125-133 | with every book walked the index is the linked index |
| BuildIndices.LinkBooks | js/build-indices.js:118-134 | grouping then walking every group leaves the array equal to the linked index of its old contents |
| BuildIndices.CollectRecords | js/build-indices.js:44-108 | the entry loop pushes exactly the built records, in directory order |
| BuildIndices.BuildForCategory | js/build-indices.js:37-137 | a missing directory gives no records. Otherwise the output is the built records reordered with non-increasing keys, and for books also linked |
| BuildIndices.BooksIndexLinksSymmetric | js/build-indices.js:118-134 | in a books index built from a directory, `next` and `prev` links are symmetric |
| LectorCore.NormalizeItem | js/lector-core.js:101-104 | the item gets a path and nothing else changes |
| LectorCore.NormalizedPath | js/lector-core.js:103 | the path is `path`, else `file`, else `href`, else '' |
| LectorCore.NormalizedItems | js/lector-core.js:98-104 | a missing or non-list index gives no items; otherwise one normalised item per item, in order |
| LectorCore.ItemOf | js/lector-core.js:16-19 | (no contract of its own) a record as the viewer reads it, with no `title`; `ViewerAgreesWithinOneBook` uses it |
| LectorCore.PrepareItems | js/lector-core.js:98-107 | the list is a permutation of the normalised items, every item has a path, and paths never increase |
| LectorCore.NonSpace | js/lector-core.js:20 | dropping white space never lengthens a text |
| LectorCore.CollapseWs | js/lector-core.js:20 | `replace(/\s+/g, ' ')`: single-spaced, same other characters, empty only for empty input, same first character when that is not white space; where each run's space goes is stated by `CollapseRun` and `CollapseWord` |
| LectorCore.CollapseKeepsSingleSpaced | js/lector-core.js:20 | a text already single-spaced is left exactly as it is, so every space of it stays where it was |
| LectorCore.CollapseRun | js/lector-core.js:20 | a run of white space (tabs, line breaks, several spaces) followed by a character that is not white space, or by the end, becomes exactly one space in that place |
| LectorCore.CollapseWord | js/lector-core.js:20 | a word without white space passes through unchanged and the rest is collapsed after it; with `CollapseRun` this fixes the collapse of any text, piece by piece |
| LectorCore.CollapseExample | js/lector-core.js:20 | `"a\t\n b"` collapses to `"a b"` |
| LectorCore.SpaceRunDropped | js/lector-core.js:20 | skipping a leading white-space run drops only white space |
| LectorCore.NonSpaceConcat | js/lector-core.js:20 | the non-space characters of a concatenation are those of each part, in order |
| LectorCore.NonSpaceOfSpaces | js/lector-core.js:20 | an all-white-space text has no other character |
| LectorCore.TrimKeepsNonSpace | js/lector-core.js:20 | `trim` drops white space only |
| LectorCore.SpacesAround | js/lector-core.js:20 | white space on either side adds no character |
| LectorCore.InfixSingleSpaced | js/lector-core.js:20 | an infix of a single-spaced text is single-spaced |
| LectorCore.ListLabelShape | js/lector-core.js:16-20 | the label is trimmed and single-spaced, and keeps every non-space character of the date, the time and `— title`, in that order |
| LectorCore.ListLabel | js/lector-core.js:16-20 | (no contract of its own) the list label; `ListLabelShape` states its shape and characters, `ListLabelOfPieces` and `ListLabelValue` its exact text |
| LectorCore.Words | js/lector-core.js:16-20 | the reference the label is compared with: the non-empty pieces joined by single spaces, '' exactly when every piece is empty |
| LectorCore.ListLabelOfPieces | js/lector-core.js:16-20 | for a date and a time without white space, each possibly missing or '', and a title that is trimmed and single-spaced when present, the label is `Words` of date, time and `— title`: an entry without a time, such as an extras record or a rule-3 record, is labelled `date — title` or `date` |
| LectorCore.TrimPadded | js/lector-core.js:20 | `trim` drops exactly the white space around a text that neither starts nor ends with white space |
| LectorCore.ListLabelValue | js/lector-core.js:16-20 | for a date and a time without white space, the label is exactly `date time`, followed by ` — title` when the title is present, trimmed and single-spaced |
| LectorCore.TitlePart | js/lector-core.js:19 | (no contract of its own) the `— title` piece; `TitlePartNonSpace` states what it contributes |
| LectorCore.TitlePartNonSpace | js/lector-core.js:19 | `— title` contributes the dash and the title's characters, only when the title is present |
| LectorCore.CollapsedAndTrimmed | js/lector-core.js:20 | collapsing then trimming gives a trimmed, single-spaced text with the same other characters |
| LectorCore.JoinThreeNonSpace | js/lector-core.js:16-20 | joining three pieces with spaces adds no other character |
| LectorCore.SpaceSeparated | js/lector-core.js:20 | a separating space adds no other character |
| LectorCore.KnownExtensionsFoldSafe | js/build-indices.js:10 | the known extensions are written in lower-case letters, digits and the dot |
| LectorCore.LowerIsFold | js/lector-core.js:27 | on those characters, lower-casing and the `i` flag agree |
| LectorCore.ExtensionEnds | js/lector-core.js:27 | a name whose extension lower-cases to `ext` has an index path ending in `ext` up to case |
| LectorCore.LastFold | js/lector-core.js:27 | a text ending in a literal up to case ends in that literal's last character up to case |
| LectorCore.AudioEntriesPlay | js/lector-core.js:26-28 | with `.opus` added, a thoughts entry is played as audio exactly when the builder accepted it as audio |
| LectorCore.HtmlIsNotAudio | js/lector-core.js:27 | a path ending in an HTML extension ends in no audio extension |
| LectorCore.OpusNotPlayed | js/lector-core.js:26-28 | as written, an accepted `.opus` export is listed as text, not played |
| LectorCore.OpusPathNotAudio | js/lector-core.js:27 | a path ending in `.opus` fails the four-extension test |
| LectorCore.IsAudio | js/lector-core.js:26-28 | (no contract of its own) `isAudio`; `AudioEntriesPlay`, `OpusNotPlayed` and `HtmlIsNotAudio` state which entries it plays |
| LectorCore.IsAudioPath | js/lector-core.js:27 | (no contract of its own) the four-extension test; `OpusPathNotAudio` and `HtmlIsNotAudio` state what it refuses |
| LectorCore.MonthName | js/lector-core.js:139 | a month name is a non-empty run of small letters, `undefined` outside the twelve |
| LectorCore.PairValue | js/lector-core.js:144 | `parseInt` of two digits is below 100 |
| LectorCore.FirstDay | js/lector-core.js:144 | the day read from the first date is below 100 |
| LectorCore.FirstMonth | js/lector-core.js:144 | the month read from the first date is below 100 |
| LectorCore.FechaBonitaExample | js/lector-core.js:141-146 | a text starting with a date of 16 October gives `16 de octubre` |
| LectorCore.FechaBonitaMonthOutOfRange | js/lector-core.js:144-145 | month `00` or above `12` gives `<day> de undefined` |
| LectorCore.UndefinedMonth | js/lector-core.js:145 | a month outside the list is rendered `undefined` |
| LectorCore.SixteenOctober | js/lector-core.js:145 | day 16 of month index 9 is `16 de octubre` |
| LectorCore.FechaBonitaInjective | js/lector-core.js:141-146 | for months in range, equal outputs mean equal days and months: both read back from the text |
| LectorCore.DayMonthInjective | js/lector-core.js:145 | `<day> de <month>` determines the day and the month |
| LectorCore.DayMonthParts | js/lector-core.js:145 | equal `<day> de <month>` texts have equal day digits and month names |
| LectorCore.DigitsDeWord | js/lector-core.js:145 | digits followed by ` de ` split back uniquely |
| LectorCore.DigitsThenSpace | js/lector-core.js:145 | digits followed by a space-led rest split back uniquely |
| LectorCore.MesesDistinct | js/lector-core.js:139 | the twelve month names are distinct |
| LectorCore.FechaBonitaIdempotent | js/lector-core.js:141-146 | formatting a formatted date changes nothing |
| LectorCore.FmtFechaBonita | js/lector-core.js:141-146 | (no contract of its own) `fmtFechaBonita`; `FechaBonitaExample`, `FechaBonitaInjective`, `FechaBonitaIdempotent` and `FechaBonitaMonthOutOfRange` state what it writes |
| LectorCore.TrimmedHasNoDate | js/lector-core.js:142-143 | trimming a text without a date leaves no date |
| LectorCore.DateInInfix | js/lector-core.js:142 | a date inside an infix is a date of the whole text |
| LectorCore.FormattedHasNoDate | js/lector-core.js:145 | `<day> de <month>` holds no date |
| LectorCore.NoDigitAfterDay | js/lector-core.js:145 | past the day, `<day> de <month>` holds no digit |
| LectorCore.FormattedIsTrimmed | js/lector-core.js:145 | `<day> de <month>` is trimmed |
| LectorCore.TrimOfTrimmed | js/lector-core.js:143 | trimming a trimmed text changes nothing |
| LectorCore.StripSlashes | js/lector-core.js:152 | `replace(/^\/+/, '')` leaves no leading `/` |
| LectorCore.NormPath | js/lector-core.js:152 | a normalised path has no leading `/` |
| LectorCore.Slashes | js/lector-core.js:152 | a run of `n` slashes |
| LectorCore.NormPlain | js/lector-core.js:152 | a path starting with neither `/` nor `./` normalises to itself |
| LectorCore.SlashRunDropped | js/lector-core.js:152 | any run of leading slashes is dropped, and only that |
| LectorCore.NormSlashes | js/lector-core.js:152 | leading slashes make no difference |
| LectorCore.NormDotSlashes | js/lector-core.js:152 | a leading `.` and slashes make no difference |
| LectorCore.StripDotSlashes | js/lector-core.js:152 | (no contract of its own) the path normalisation of `samePath`; `NormDotSlashes` and `NormPlain` state what it drops and keeps |
| LectorCore.DotSlashSamePath | js/lector-core.js:151-155 | `./data/x` (any number of slashes) is the same path as `data/x` |
| LectorCore.SlashSamePath | js/lector-core.js:151-155 | `/data/x` (any number of slashes) is the same path as `data/x` |
| LectorCore.SamePathEquivalence | js/lector-core.js:151-155 | `samePath` is reflexive, symmetric and transitive |
| LectorCore.SamePath | js/lector-core.js:151-155 | (no contract of its own) `samePath`; `SamePathEquivalence`, `DotSlashSamePath` and `SlashSamePath` state which paths it identifies |
| LectorCore.MissingPathIsEmpty | js/lector-core.js:152 | a missing path is the same as '' |
| LectorCore.FindIndex | js/lector-core.js:198 | `findIndex` gives -1 or a position of the list |
| LectorCore.FindIndexFirst | js/lector-core.js:198 | the found position is the first chapter matching `src`, and -1 exactly when none matches |
| LectorCore.Neighbours | js/lector-core.js:197-200 | a previous chapter exactly when the found index is above 0, and it is the record just before; a next one exactly when the index is below the last, and it is the record just after |
| LectorCore.FindIndexReadsPathsOnly | js/lector-core.js:198 | the lookup reads paths only, not books or stored links |
| LectorCore.LinkKeepsLookup | js/lector-core.js:198 | linking the index does not move what the lookup finds |
| LectorCore.ViewerAgreesWithinOneBook | js/lector-core.js:197-200 | in an index of one book, the reader's buttons lead where the stored `prev`/`next` point, and are missing where they are '' |
| LectorCore.OneBookPrev | js/build-indices.js:128-130 | in one book, `prev` is the record just before, or '' for the first |
| LectorCore.OneBookNext | js/build-indices.js:129-131 | in one book, `next` is the record just after, or '' for the last |
| LectorCore.ViewerCrossesBooks | js/lector-core.js:199 | when the record before a chapter belongs to another book, the "previous" button leads to it, which is never the chapter the stored `prev` names |
| LectorCore.StoredPrevSkipsOtherBook | js/build-indices.js:128-130 | a record never names a neighbour of another book as its `prev` |
| LectorCore.FechaFallback | js/lector-core.js:162-167 | an empty `#fecha` takes the date starting the last `/`-segment of `src` when that begins `YYYY-MM-DD__`, else stays as it is |
| LectorCore.FechaFromFileName | js/lector-core.js:163-166 | a chapter stored as `<dir>/YYYY-MM-DD__…` without its own date gets its file's date |
| LectorCore.LastAfterSeparator | js/lector-core.js:164 | the last `/`-segment of `p/t` is `t` when `t` has no `/` |
| EditorCore.PadStart | js/editor-core.js:5 | `padStart`: the text is kept at the end, the padding fills the front, and the length is at least `len` |
| EditorCore.Two | js/editor-core.js:5 | `two(n)` has at least two characters |
| EditorCore.TwoRoundTrip | js/editor-core.js:5 | every number from 0 to 99 is written with exactly two digits that read back as it |
| EditorCore.TwoExamples | js/editor-core.js:5 | `two(5)` is "05" and `two(42)` is "42" |
| EditorCore.TwoWide | js/editor-core.js:5 | numbers of two or more digits are not padded |
| EditorCore.DaysInMonth | js/editor-core.js:7-8 | 28 to 31 days; February has 29 exactly in Gregorian leap years |
| EditorCore.RollBack | js/editor-core.js:7 | a day below 1 carries back into earlier months; a day from 1 on stays |
| EditorCore.RollForward | js/editor-core.js:7 | a day past its month carries into later months; a day within it stays |
| EditorCore.UtcFields | js/editor-core.js:7-8 | `Date.UTC` read back always gives a real calendar day |
| EditorCore.UtcFieldsIdentity | js/editor-core.js:7-8 | the fields come back unchanged exactly for a real day of a year from 100 on |
| EditorCore.UtcInRange | js/editor-core.js:7-8 | from year 100 on, a day within its month stays, and a day outside it lands in another month |
| EditorCore.DayZero | js/editor-core.js:7 | day 0 is in the month before |
| EditorCore.UtcTwoDigitYear | js/editor-core.js:7-8 | years 0 to 99 come back as 1898 or later, so never unchanged |
| EditorCore.ValidDateIff | js/editor-core.js:6-9 | `isValidDateYMD` holds exactly for the `DDDD-DD-DD` shape with a year of at least 100, a month 1–12 and a day within the month |
| EditorCore.IsValidDateYMD | js/editor-core.js:6-9 | (no contract of its own) `isValidDateYMD`; `ValidDateIff` states exactly which dates it accepts |
| EditorCore.DateExamples | js/editor-core.js:6-9 | `2024-02-29` passes; `2023-02-29`, `1900-02-29`, `2025-04-31` and `2025-13-01` fail |
| EditorCore.TimeOfPieces | js/editor-core.js:10-12 | `HH:MM` from two digit pairs is valid exactly when they read as an hour below 24 and a minute below 60 |
| EditorCore.IsValidTimeHM | js/editor-core.js:10-12 | (no contract of its own) `isValidTimeHM`; `TimeOfPieces` states exactly which times it accepts |
| EditorCore.TimeRoundTrip | js/editor-core.js:93 | the editor's default time passes its validator exactly when hour and minute are in range |
| EditorCore.DefaultDateValid | js/editor-core.js:84 | the editor's default date of a four-digit year passes its own validator |
| EditorCore.DatePieces | js/editor-core.js:6 | four, two and two digits joined by `-` have the date shape and read back as those pieces |
| EditorCore.DateFields | js/editor-core.js:84 | a date written with `two` reads back as its year, month and day, and is valid exactly for a real day |

## Left out

- Filesystem access: the existence check, listing, reading and writing, the JSON formatting and the console output of the build (js/build-indices.js:40-42, 90-98, 139-147), and `readFileText`. Directory entries and what reading each gives are inputs. A missing directory is an absent listing.
- Network access: `fetch`, `fetchJSON`, `fetchText`, the `?ts=` cache-buster and the two-URL retry loop of the list viewer (js/lector-core.js:5-9, 77-96, 148-149). The loaded index is an input. A failed load, or a value that is not a list, is an absent list.
- DOM and rendering:
  - element creation and `innerHTML` writes;
  - `getMetaFromHTML`'s `querySelector` parsing and its content selection (js/lector-core.js:157-182);
  - the reader's heading text (js/lector-core.js:192-194);
  - the audio caption (js/lector-core.js:39);
  - the buttons built from the neighbours (js/lector-core.js:202-220);
  - every formatting, selection and event function of the editor.
- The reader's `init` normalisation of `src` (js/lector-core.js:226). It depends on `decodeURIComponent` and the URL. The lookup takes `src` as given.
- `decodeURIComponent` is a function parameter (`decode`) of `SamePath`, `FindIndex` and `Neighbours`. Its escapes and its exceptions are not modelled. `NoDecoding` stands for texts without escapes.
- The wall clock. `new Date()` and `Date.now()` become the year, month, day, hour and minute arguments of the default-value lemmas.
- `Date.UTC` is modelled on years, months and days only, not on epoch milliseconds. Its limit on the representable range (about ±275,000 years) is not modelled.
- Sorting.SortDescending: states only a permutation with non-increasing keys. The engine's order among equal keys is not fixed by the comparator, which never answers "equal".
- BuildIndices.BuildForCategory: the index just after sorting is a ghost out-parameter. Its tie order is left to the sort, as above.
- Strings.Lower: lower-cases ASCII and Latin-1 letters only, which covers every extension the build compares. Other scripts' case mappings are not modelled. `BookKey` (js/build-indices.js:121) groups books by this, so book names that differ only in the case of Greek, Cyrillic or other non-Latin-1 letters form one group in JavaScript and two here.
- Strings.Less: compares code points. JavaScript's `<` compares UTF-16 code units, so strings holding characters above U+FFFF can order differently in the sorts (js/build-indices.js:114, js/lector-core.js:107). The sort keys of conventionally named entries are ASCII, where the two agree.
- Strings.IsSpace: the `\s` class as ECMAScript defines it. `trim` uses the same set.
- Utils.TextById: its value is stated outright only for a page whose first element with the id is a `<span id="…">` holding no `</` (`Utils.TextByIdOfSpan`). For other markup the contract states that the text is trimmed, that it is '' when no element for the id matches, and that it is non-empty only when one does (an element holding only white space also gives ''); it does not state which text it is.
- Utils.ExtractMetaByIds: its fields are `Utils.TextById` of the four ids, so they are stated as above; `Utils.MetaLibroOfSpan` gives the book field of a span page.
- Utils.ExtractTitle: its value is stated outright only for a page whose first `<title>` is one line of text (`Utils.ExtractTitleOfPage`).
- BuildIndices.H3Title: its value is stated outright only for a page whose first heading is a plain `<h3>` (`BuildIndices.H3TitleOfPage`); headings with attributes are covered by the shape and presence contract only.
- LectorCore.FindIndex: its own contract states the range only. The first-match property is `LectorCore.FindIndexFirst`.
- LectorCore.ListLabel: its exact text (`LectorCore.ListLabelOfPieces`) is stated when the date and the time hold no white space and the title, when present, is trimmed and single-spaced. For a title with white space at its ends or in runs, only the shape and the characters are stated (`LectorCore.ListLabelShape`).

## Findings

| source | as written | input that shows it | evidently intended | confidence | as-written member | corrected member |
|---|---|---|---|---|---|---|
| js/lector-core.js:27 | `isAudio` tests `.mp3`, `.m4a`, `.ogg` and `.wav` only | a thoughts entry `WhatsApp Audio 2025-10-14 at 11.13.45.opus`, which the builder accepts as audio (js/build-indices.js:10) and dates with the audio-export parser | every extension the builder accepts as audio, `.opus` included, is played | medium, not executed | LectorCore.OpusNotPlayed | LectorCore.AudioEntriesPlay |
