# Gutenberg text extraction, modelled in Dafny

This project models the text-extraction core of the `Gutenberg.py` notebook.
For each Project Gutenberg book file, the notebook does three things:

- It reads the first forty lines and picks out labelled metadata: `Title:`,
  `Author:`, `Posting Date:`, `Release Date:`, `First Posted:`,
  `Last Updated:`, `Language:` and `Character Set Encoding:`.
- It cuts the book body out of the full text, between a `*** ... START ...`
  marker line and a `*** ... END ...` marker.
- It computes statistics of that body:
  - whether the normalised text contains "truth" more than twice;
  - the number of closing quotation marks `”`;
  - the body length.

One row is appended per `.txt` file. The release-date column is then
cleaned, by cutting a bracketed annotation, trimming and inserting a comma,
and a year is read from its last four characters.

Modules:

- `Text` (`text.dfy`): the scans the patterns need. They are: the next
  occurrence of a character, substring occurrence, non-overlapping match
  counting (`re.findall`), and character counting.
- `Header` (`header.dfy`):
  - the eight label patterns and `parse_line`, as a first-match search over
    the fields in table order;
  - `readline` over the decoded text;
  - the forty-line header loop. This is a method that advances a read
    position and updates the row map, and it is proved equal to a fold of
    the parse results over the forty lines read.
- `Body` (`body.dfy`):
  - the marker searches, as leftmost-match scans, and the slice `raw[start:stop]`;
  - the normalisation `re.sub('[^A-Za-z0-9.]+', ' ', text).lower()`, proved
    equal to a reading that blanks every removed character and then shrinks
    each run of spaces to one;
  - the truth flag, the quotation-mark count and the length.
- `ReleaseDate` (`releasedate.dfy`): `re.sub(r'\[.*\].*', '', s)`, Python's
  `strip()`, `re.sub(r'(\w)( \d{4})', r'\1,\2', s)`, `str[-4:]` and
  `astype(int)`.
- `Corpus` (`corpus.dfy`): the row built for one file, and the loop over the
  `.txt` entries of a listing that appends one row per file.

Two behaviours of the code are worth knowing, and the model follows the code
in both:

- **Where the body starts.** The START pattern ends in `.*`, and `.` never
  matches a line feed. So the match ends at the end of the marker line, and
  the body begins with that line's line feed (or is empty at the end of the
  text). Nothing of the marker line after `START` is part of the body. This
  differs from a reading in which the body begins right after the matched
  fragment, with the rest of the marker line included.
- **Where the body stops.** The END search covers the whole text, not only
  what follows the START marker. An END marker on or before the START line
  therefore gives an empty body: for example, a START line naming a title
  such as "LEGEND" (`Body.EarlyEndGivesEmptyBody`).

A file with a missing marker makes the notebook raise, which stops the whole
run. The model represents this as an absent result: `None` for the row, and
`None` for the whole collection.

## Model

| member | source | states |
|---|---|---|
| Text.CountMatches | Gutenberg.py:99 | `re.findall` count of a pattern: the counted matches fit side by side in the text |
| Text.CountedPatternOccurs | Gutenberg.py:99 | a positive count means the pattern occurs in the text |
| Text.CountMatchesIsOccurrences | Gutenberg.py:99 | for a pattern that cannot overlap itself, the non-overlapping left-to-right count equals the number of positions where the pattern occurs |
| Text.CountChar | Gutenberg.py:102 | the number of occurrences of a character is its multiplicity in the text, at most the text length |
| Header.MatchFieldSpec | Gutenberg.py:25-32 | a label pattern matches exactly when the line starts with the label, `": "`, and has a line feed later; the captured value is everything in between and holds no line feed |
| Header.MatchField | Gutenberg.py:41 | `rx.match(line)` for one field: a captured value is shorter than the line (its full pattern is stated by `MatchFieldSpec`) |
| Header.NoneMatchShift | Gutenberg.py:41-46 | when the first field in the order fails, no field matches exactly when none of the remaining fields does |
| Header.AtMostOneField | Gutenberg.py:23-33 | no line matches two different label patterns |
| Header.ParseFrom | Gutenberg.py:41-46 | trying fields in order returns a field whose pattern matches, with every earlier field failing; nothing is returned exactly when no field in the order matches |
| Header.ParseLine | Gutenberg.py:40-46 | `parse_line` returns a field with the value its pattern captures, and returns nothing exactly when no pattern matches |
| Header.ParseLineExact | Gutenberg.py:40-46 | a line yields (field, value) if and only if that field's own pattern captures that value |
| Header.TitleLineExample | Gutenberg.py:25 | `"Title: Moby Dick\n"` yields the title `"Moby Dick"`, without label or line feed |
| Header.UnterminatedLineYieldsNothing | Gutenberg.py:25-32 | a line without a line feed matches nothing: a last line without one, or the empty string read at end of file |
| Header.ReadLine | Gutenberg.py:65 | `readline` advances the read position to the start of the next line; it returns the empty string at end of file, and otherwise a non-empty line that ends in a line feed or at the end of the text |
| Header.NextLine | Gutenberg.py:65 | the next read position stays put at end of file; otherwise it lies past the current one, just after a line feed or at the end of the text |
| Header.ReadLineStopsAtLineFeed | Gutenberg.py:65 | a line read is the text between two read positions and holds no line feed before its last character |
| Header.LinesJoin | Gutenberg.py:65 | the lines read one after another join back into the whole text |
| Header.ReadLinesAt | Gutenberg.py:64-65 | the `j`-th read is the `j`-th line of the text, or the empty string once the file is exhausted |
| Header.ReadHeaderStep | Gutenberg.py:64-84 | one round of the loop moves the read position past the line read and extends the fold by that line's parse result |
| Header.ReadHeader | Gutenberg.py:58-84 | the row after forty `readline`/`parse_line` rounds is the fold of the parse results over the forty lines read, each match overwriting its field |
| Header.FoldStep | Gutenberg.py:66-84 | one more line writes the field it matches with its value and leaves every other field unchanged; a line matching nothing leaves the row unchanged |
| Header.FoldLastWins | Gutenberg.py:69-84 | in the row written from a sequence of parse results, the latest result for a field supplies its value |
| Header.FoldAbsent | Gutenberg.py:69-84 | a field that no parse result names is never written into the row |
| Header.FoldSource | Gutenberg.py:69-84 | every field in the row holds the value of the latest parse result that names it |
| Header.LastMatchWins | Gutenberg.py:64-84 | a field matched on line `i` and on no later line holds the value from line `i` |
| Header.UnmatchedFieldAbsent | Gutenberg.py:64-84 | a field that no line matches is absent from the row |
| Header.FieldComesFromLastMatch | Gutenberg.py:64-84 | every field in the row has the value captured on some line by its own pattern, and no later line matches that field |
| Header.BeyondWindowIgnored | Gutenberg.py:64 | a label that appears only on line 41 or later, or not at all, leaves its field absent |
| Body.MarkerAtSpec | Gutenberg.py:92-94 | the marker pattern `\*\*\*.*KW.*` matches at `p` exactly when `***` stands at `p` and the keyword occurs after it with no line feed in between |
| Body.SearchMarker | Gutenberg.py:92-94 | the scan returns the leftmost position at or after its start where `***` is followed later on the same line by the keyword, and returns nothing when there is none |
| Body.FindMarker | Gutenberg.py:92-94 | `re.search` returns the first marker position, and returns nothing exactly when no position matches |
| Body.BodyBounds | Gutenberg.py:92-94 | the bounds are absent exactly when a START or END marker is missing; `start` is a line feed or the text end; `stop` is where `***` begins |
| Body.BodyBoundsMarkers | Gutenberg.py:92-94 | `start` is the end of the line holding the first START marker, and `stop` is the first END marker |
| Body.ExtractBody | Gutenberg.py:92-95 | the body exists exactly when both markers do; it is no longer than the text and is empty or begins with a line feed |
| Body.BodyBetweenMarkers | Gutenberg.py:92-95 | the body is the text from the end of the first START line up to the first END marker, `raw[start:stop]`, and is empty when that marker comes no later than the line end |
| Body.EarlyEndGivesEmptyBody | Gutenberg.py:94-95 | an END marker on or before the first START line gives an empty body |
| Body.BodyHasNoEndMarker | Gutenberg.py:94-95 | the body contains no END marker |
| Body.Collapse | Gutenberg.py:97 | the substitution leaves only kept characters and spaces, never two adjacent spaces, is no longer than its input, and begins with a space exactly when the input begins with a removed character |
| Body.CollapseIsSqueeze | Gutenberg.py:97 | the substitution equals an independent reading: every removed character becomes a space, then each run of spaces shrinks to one, so one space stands where each maximal run of removed characters was |
| Body.CollapseSplitsWord | Gutenberg.py:97 | `"tru!th"` becomes `"tru th"`: a removed character between letters leaves a space |
| Body.CollapseKeepsText | Gutenberg.py:97 | removing the spaces from the substituted text gives the input's letters, digits and periods in order |
| Body.Lower | Gutenberg.py:97 | lowercasing keeps the length and maps each character to its ASCII lowercase form; it is applied only to the substituted text, which holds nothing but ASCII letters, digits, `.` and spaces, so it agrees with `.lower()` there |
| Body.Normalize | Gutenberg.py:97 | the normalised text holds only lowercase ASCII letters, digits, `.` and spaces, never two adjacent spaces, and is no longer than the body |
| Body.NormalizeIsSqueeze | Gutenberg.py:97 | the normalised text is the independent reading of the substitution, lowercased |
| Body.NormalizeKeepsText | Gutenberg.py:97 | the body's ASCII letters (lowercased), digits and periods survive normalisation in their original order |
| Body.TruthCount | Gutenberg.py:99 | the count of "truth" in the normalised body is at most a fifth of the body length |
| Body.TruthCountIsOccurrences | Gutenberg.py:99 | the non-overlapping count equals the number of places where "truth" occurs in the normalised body |
| Body.TruthTwice | Gutenberg.py:99-100 | the flag is present exactly when the count exceeds two, and is never false |
| Body.DialogueInstances | Gutenberg.py:102 | the dialogue count is the multiplicity of `”` (U+201D) in the raw body, at most the body length |
| ReleaseDate.StripBrackets | Gutenberg.py:185 | cutting bracketed annotations never lengthens the text |
| ReleaseDate.CutAtFirstBracket | Gutenberg.py:185 | on one line whose first `[` has a `]` after it, everything from that `[` on is removed |
| ReleaseDate.NoClosedBracketUnchanged | Gutenberg.py:185 | a line with no `[` followed by `]` is unchanged |
| ReleaseDate.StripStart | Gutenberg.py:187 | the result is the suffix that follows the leading whitespace |
| ReleaseDate.StripEnd | Gutenberg.py:187 | the result is the prefix that precedes the trailing whitespace |
| ReleaseDate.Strip | Gutenberg.py:187 | the stripped text is empty or begins and ends with non-whitespace |
| ReleaseDate.StripIsTrimmedSlice | Gutenberg.py:187 | the stripped text is a slice of the input with only whitespace before and after it |
| ReleaseDate.StripIdempotent | Gutenberg.py:187 | stripping twice is stripping once |
| ReleaseDate.InsertComma | Gutenberg.py:189 | comma insertion never shortens the text |
| ReleaseDate.NoGapUnchanged | Gutenberg.py:189 | text with no word character followed by a space and four digits is unchanged |
| ReleaseDate.FirstGapGetsComma | Gutenberg.py:189 | the leftmost match of `(\w)( \d{4})` gets a comma right after its word character; the text before it is copied and the scan resumes after its four digits, so every non-overlapping match is rewritten |
| ReleaseDate.GapGrows | Gutenberg.py:189 | text with such a match always gains a comma |
| ReleaseDate.OnlyCommasInserted | Gutenberg.py:189 | with commas removed, the result equals the input with commas removed: nothing else is added, lost or reordered |
| ReleaseDate.LastFour | Gutenberg.py:210 | `str[-4:]` is the suffix of length four, or the whole text when shorter |
| ReleaseDate.InsertCommaKeepsLastFour | Gutenberg.py:189 | comma insertion never changes the last four characters |
| ReleaseDate.DigitsValue | Gutenberg.py:214 | the decimal value of `k` digits is below `10^k` |
| ReleaseDate.DigitsRoundTrip | Gutenberg.py:214 | reading back the `k` digits of a number below `10^k` gives the number |
| ReleaseDate.ReleaseYear | Gutenberg.py:210-214 | a year read from the last four characters is below 10000, and only a text ending in a digit has one |
| ReleaseDate.YearRoundTrip | Gutenberg.py:210-214 | any date ending in the four digits of `y` yields the year `y` |
| ReleaseDate.ShortYearRoundTrip | Gutenberg.py:210-214 | a date of one to four digits, which `str[-4:]` keeps whole, yields the number those digits spell: `"97"` yields 97 |
| ReleaseDate.NonDigitYearUndefined | Gutenberg.py:214 | a non-digit among the last four characters means there is no year |
| ReleaseDate.CleanDate | Gutenberg.py:185-189 | the cleaned date equals the bracket-cut, stripped date, apart from inserted commas |
| ReleaseDate.CleanDateNoGap | Gutenberg.py:185-189 | a cut and stripped date with no word character, space and four digits is the cleaned date |
| ReleaseDate.CleanDateFirstGap | Gutenberg.py:185-189 | in the cleaned date, the leftmost match of the cut and stripped date has its comma after the word character, and the rest is cleaned alike |
| ReleaseDate.DateYear | Gutenberg.py:206-214 | the year path without comma insertion gives the same year as reading the year from the comma-inserted date |
| ReleaseDate.AnnotatedDateExample | Gutenberg.py:185-214 | `"August 20, 2006 [EBook #102]"` cleans to `"August 20, 2006"` with year 2006 |
| ReleaseDate.BareYearExample | Gutenberg.py:185-214 | `"August 1997"` cleans to `"August, 1997"` with year 1997 |
| Corpus.RecordOf | Gutenberg.py:58-105 | a row keeps its file name; its dialogue count is at most its book length, which is at most the text length; its truth flag is never false |
| Corpus.RowNeedsBothMarkers | Gutenberg.py:92-94 | a row is built exactly when the text has both a START and an END marker |
| Corpus.RecordContents | Gutenberg.py:62-105 | the row's length, `”` count and truth flag are those of the body between the markers, and its metadata are the header loop's fields |
| Corpus.BuildRow | Gutenberg.py:58-105 | running the header loop and then the body statistics builds the row `RecordOf` describes |
| Corpus.IsTextEndsWith | Gutenberg.py:56 | `filename.endswith('.txt')`: a name is kept exactly when it is some name followed by `.txt` |
| Corpus.TextFiles | Gutenberg.py:55-56 | the filtered entries all have names ending in `.txt` and come from the listing |
| Corpus.TextFilesComplete | Gutenberg.py:55-56 | every `.txt` entry of the listing is kept |
| Corpus.CollectRecords | Gutenberg.py:53-107 | the data holds one row per `.txt` entry, in listing order, each the row for that file; the run fails exactly when some `.txt` file lacks a marker |

## Left out

- Directory listing and file reading (`os.listdir`, `open(..., errors='ignore')`, `seek`, `read`) are I/O. The listing is a parameter: a sequence of (file name, decoded text) pairs in whatever order the listing yields.
- Byte decoding, and the line-ending translation of text-mode reading, are not modelled. The text is taken as already decoded.
- The row is a record, not a Python dictionary. The `Filename` key is written twice with the same value (lines 62 and 105) and is stored once. The insertion order of dictionary keys is not modelled.
- Everything done with pandas is left out, because the library is not part of this model. This covers DataFrame construction, missingness percentages, `info`, `idxmax`, `value_counts`, `mode` and `dropna` (lines 115-177, 195, 204, 212). The date cleanup is modelled on one column value at a time; absent values, which pandas passes through, are not modelled.
- The aliasing `mode_df = metadata_df` (line 183) is not modelled: the cleanup also rewrites the `metadata_df` column in place, and the model does not capture that.
- The mean and rounding of release years (lines 220-222) are floating-point arithmetic and are left out.
- Whether pandas' `str.replace` reads its pattern as a regular expression depends on the pandas version. The model follows the regular-expression reading the comments describe (lines 184-189, 205-206).
- ReleaseDate.InsertComma: `\w` is taken as the ASCII letters, digits and `_`, and `\d` as the ASCII digits. Python's Unicode classes accept more characters.
- ReleaseDate.ReleaseYear: only a suffix made entirely of ASCII digits gives a year. Python's `int` also accepts a leading sign, surrounding whitespace, `_` between digits and non-ASCII digits; such suffixes count as having no year here.
- Errors are absent results, not exceptions. A missing marker (lines 92, 94) and a non-numeric year (line 214) raise in the notebook and stop the run. Here they give `None`, and `Corpus.CollectRecords` discards the rows built before the failure.
- Regular expressions in general are not modelled; only the patterns above are, each as a hand-written scan.
